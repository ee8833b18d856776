/** The heap-allocated multi-tenant radix tree. */
module RadixTree {
  import opened Collections
  import opened Prefixes
  import opened RadixSpec
  import opened RadixSteps
  import opened RadixEviction
  import opened RadixEvictionRuns
  import opened RadixTraversal
  import RadixRuns

  ghost function Paths(ns: seq<Node>): (ps: seq<string>)
    ensures |ps| == |ns| && forall i :: 0 <= i < |ns| ==> ps[i] == ns[i].path
  {
    if ns == [] then [] else Paths(ns[..|ns| - 1]) + [ns[|ns| - 1].path]
  }

  /** The number of leading characters a and b share. */
  method SharedPrefixCount(a: string, b: string) returns (i: nat)
    ensures i == Shared(a, b)
  {
    i := 0;
    while i < |a| && i < |b| && a[i] == b[i]
      invariant i <= |a| && i <= |b| && a[..i] == b[..i]
    {
      i := i + 1;
    }
    MeetUnique(a, b, a[..i]);
  }

  /** The characters shared on an edge, seen from the root. */
  lemma SharedOnPath(p: string, q: string, text: string, shared: nat)
    requires p < q && p < text && q[|p|] == text[|p|]
    requires shared == Shared(q[|p|..], text[|p|..])
    ensures 0 < shared <= |q| - |p| && |p| + shared <= |text|
    ensures q[..|p| + shared] == text[..|p| + shared]
    ensures |p| + shared < |q| && |p| + shared < |text| ==> q[|p| + shared] != text[|p| + shared]
  {
    var m := |p| + shared;
    assert q[..m] == p + q[|p|..][..shared];
    assert text[..m] == p + text[|p|..][..shared];
  }

  lemma PathsAppend(a: seq<Node>, b: seq<Node>)
    ensures Paths(a + b) == Paths(a) + Paths(b)
  {
    forall i | 0 <= i < |a| + |b| ensures Paths(a + b)[i] == (Paths(a) + Paths(b))[i] {
    }
  }

  class Node {
    var children: map<char, Node>
    var text: string
    var owners: Owners
    var parent: Node?
    /** The string spelled from the root to the end of this node; splitting never changes it. */
    ghost const path: string

    constructor (text: string, owners: Owners, parent: Node?, ghost path: string)
      ensures this.text == text && this.owners == owners && this.parent == parent
      ensures this.path == path && children == map[]
    {
      this.children := map[];
      this.text := text;
      this.owners := owners;
      this.parent := parent;
      this.path := path;
    }
  }

  /** A candidate for eviction; the heap orders candidates by timestamp alone. */
  datatype Entry = Entry(timestamp: Time, tenant: Tenant, node: Node)

  ghost function Named(pq: multiset<Entry>): Names
  {
    set e | e in pq :: (e.node.path, e.tenant)
  }

  /** The heap's pop: some candidate with the smallest timestamp. */
  method PopOldest(pq: multiset<Entry>) returns (oldest: Entry, rest: multiset<Entry>)
    requires pq != multiset{}
    ensures oldest in pq && rest == pq - multiset{oldest}
    ensures forall e :: e in pq ==> oldest.timestamp <= e.timestamp
  {
    oldest :| oldest in pq;
    var others := pq - multiset{oldest};
    while others != multiset{}
      invariant oldest in pq && others <= pq
      invariant forall e :: e in pq ==> e in others || oldest.timestamp <= e.timestamp
      decreases |others|
    {
      var e :| e in others;
      others := others - multiset{e};
      if e.timestamp < oldest.timestamp {
        oldest := e;
      }
    }
    rest := pq - multiset{oldest};
  }

  class Tree {
    const root: Node
    var charCount: map<Tenant, nat>
    /** Every node reachable from the root, by path. */
    ghost var at: map<string, Node>

    ghost predicate In(n: Node)
      reads `at
    {
      n.path in at && at[n.path] == n
    }

    ghost predicate UpLink(p: string)
      requires p in at && p != ""
      reads `at, at.Values`text, at.Values`parent, at.Values`children
    {
      var n := at[p];
      && n.parent != null
      && In(n.parent)
      && IsParent(at.Keys, n.parent.path, p)
      && n.text == p[|n.parent.path|..]
      && n.text[0] in n.parent.children
      && n.parent.children[n.text[0]] == n
    }

    ghost predicate DownLink(p: string, c: char)
      requires p in at && c in at[p].children
      reads `at, at.Values`text, at.Values`parent, at.Values`children
    {
      var k := at[p].children[c];
      && In(k)
      && k.parent == at[p]
      && p < k.path
      && k.path[|p|] == c
    }

    /** Parent links, children maps and texts agree with the paths. */
    ghost predicate Linked()
      reads `at, at.Values`text, at.Values`parent, at.Values`children
    {
      && Branching(at.Keys)
      && at[""] == root
      && root.path == "" && root.text == "" && root.parent == null
      && (forall p {:trigger at[p]} :: p in at ==> at[p].path == p)
      && (forall p {:trigger UpLink(p)} :: p in at && p != "" ==> UpLink(p))
      && (forall p, c {:trigger DownLink(p, c)} :: p in at && c in at[p].children ==> DownLink(p, c))
    }

    /** The value of the tree: the owners of every node. */
    ghost function Abs(): (M: Nodes)
      reads `at, at.Values`owners
    {
      map p | p in at :: at[p].owners
    }

    /** The representation invariant between operations. */
    ghost predicate Valid()
      reads this, at.Values
    {
      Linked() && Sound(Abs(), charCount)
    }

    lemma NamesAre(K: set<string>)
      requires K == at.Keys
      ensures Abs().Keys == K
    {
    }

    constructor ()
      ensures Valid() && fresh(at.Values)
      ensures Abs() == map["" := map[]] && charCount == map[]
    {
      root := new Node("", map[], null, "");
      charCount := map[];
      new;
      at := map["" := root];
      MeetUnique("", "", "");
    }

    /** A new leaf below curr, owned by t alone. */
    method Graft(curr: Node, rest: string, t: Tenant, now: Time, ghost M: Nodes) returns (n: Node)
      requires Linked() && M == Abs() && In(curr) && rest != "" && rest[0] !in curr.children
      modifies `at, curr`children
      ensures Linked() && fresh(n)
      ensures n.path == curr.path + rest && n.path !in old(at) && at == old(at)[n.path := n]
      ensures Abs() == M[n.path := map[t := now]]
    {
      n := new Node(rest, map[t := now], curr, curr.path + rest);
      NoChildNoNode(curr, n.path);
      curr.children := curr.children[rest[0] := n];
      at := at[n.path := n];
      GraftedLinks(curr, n);
      AbsAdded(n);
    }

    twostate lemma GraftedLinks(curr: Node, new n: Node)
      requires old(Linked() && In(curr)) && !old(allocated(n))
      requires curr.path < n.path && at == old(at)[n.path := n]
      requires forall q :: q in old(at) ==> !(n.path[..|curr.path| + 1] <= q)
      requires n.text == n.path[|curr.path|..] && n.parent == curr && n.children == map[]
      requires n.text[0] !in old(curr.children) && curr.children == old(curr.children)[n.text[0] := n]
      requires forall p :: p in old(at) ==> at[p].text == old(at[p].text) && at[p].parent == old(at[p].parent)
      requires forall p :: p in old(at) && at[p] != curr ==> at[p].children == old(at[p].children)
      ensures Linked()
    {
      GraftShape(old(at.Keys), curr.path, n.path);
      assert at.Keys == old(at.Keys) + {n.path};
      forall p | p in at && p != "" ensures UpLink(p) {
        if p != n.path { assert old(UpLink(p)); }
      }
      forall p, c | p in at && c in at[p].children ensures DownLink(p, c) {
        if p != n.path && !(p == curr.path && c == n.text[0]) { assert old(DownLink(p, c)); }
      }
    }

    twostate lemma AbsAdded(new n: Node)
      requires n.path !in old(at) && at == old(at)[n.path := n]
      requires forall p :: p in old(at) ==> old(at)[p].owners == old(at[p].owners)
      ensures Abs() == old(Abs())[n.path := n.owners]
    {
    }

    lemma NoChildNoNode(curr: Node, r: string)
      requires Linked() && In(curr) && curr.path < r && r[|curr.path|] !in curr.children
      ensures r !in at && forall q :: q in at ==> !(r[..|curr.path| + 1] <= q)
    {
      forall q | q in at && r[..|curr.path| + 1] <= q ensures false {
        ChildToward(curr.path, q);
      }
    }

    /** Cuts the edge from curr to matched after k characters; the new node copies matched's owners. */
    method Split(curr: Node, matched: Node, k: nat, ghost way: string, ghost M: Nodes) returns (n: Node)
      requires Linked() && M == Abs() && In(curr) && In(matched) && matched.path != ""
      requires matched.parent == curr && 0 < k < |matched.text|
      requires way < matched.path && |way| == |curr.path| + k
      modifies `at, curr`children, matched`text, matched`parent
      ensures Linked() && fresh(n)
      ensures n.path == way && way !in old(at) && at == old(at)[way := n]
      ensures |n.text| == k && n.owners == M[matched.path]
      ensures Abs() == M[n.path := M[matched.path]]
    {
      assert UpLink(matched.path);
      n := NewMiddle(curr, matched, k, way);
      Relink(curr, matched, k, n);
      at := at[n.path := n];
      SplitLinks(curr.path, matched.path, n);
      AbsAdded(n);
    }

    /** The upper part of an edge that is being cut. */
    method NewMiddle(curr: Node, matched: Node, k: nat, ghost way: string) returns (n: Node)
      requires 0 < k < |matched.text|
      ensures fresh(n) && n.text == matched.text[..k] && n.owners == matched.owners && n.parent == curr && n.path == way
      ensures n.children == map[matched.text[k] := matched]
    {
      n := new Node(matched.text[..k], matched.owners, curr, way);
      n.children := map[matched.text[k] := matched];
    }

    /** The new node takes its place between curr and matched. */
    method Relink(curr: Node, matched: Node, k: nat, n: Node)
      requires 0 < k < |matched.text| && n.text != "" && n != curr && n != matched
      modifies curr`children, matched`text, matched`parent
      ensures curr.children == old(curr.children)[n.text[0] := n]
      ensures matched.text == old(matched.text)[k..] && matched.parent == n
    {
      curr.children := curr.children[n.text[0] := n];
      matched.text := matched.text[k..];
      matched.parent := n;
    }

    twostate lemma SplitLinks(new r: string, new p: string, new n: Node)
      requires old(Linked()) && r in old(at) && p in old(at) && p != "" && !old(allocated(n))
      requires r < n.path && n.path < p && at == old(at)[n.path := n]
      requires old(at[p].parent) == old(at)[r]
      requires n.text == n.path[|r|..] && n.parent == old(at)[r]
      requires n.children == map[p[|n.path|] := old(at)[p]]
      requires old(at)[r].children == old(at[r].children)[n.text[0] := n]
      requires old(at)[p].text == p[|n.path|..] && old(at)[p].parent == n
      requires forall q ::
        q in old(at) && q != p ==> old(at)[q].text == old(at[q].text) && old(at)[q].parent == old(at[q].parent)
      requires forall q :: q in old(at) && q != r ==> old(at)[q].children == old(at[q].children)
      ensures Linked() && n.path !in old(at)
    {
      assert old(UpLink(p));
      SplitShape(old(at.Keys), r, p, n.path);
      assert at.Keys == old(at.Keys) + {n.path};
      forall q | q in at && q != "" ensures UpLink(q) {
        if q != n.path && q != p { assert old(UpLink(q)); }
      }
      forall q, c | q in at && c in at[q].children ensures DownLink(q, c) {
        if q != n.path && !(q == r && c == n.text[0]) { assert old(DownLink(q, c)); }
      }
    }

    method SetOwner(n: Node, t: Tenant, now: Time, ghost M: Nodes)
      requires Linked() && M == Abs() && In(n)
      modifies n`owners
      ensures Linked() && t in n.owners
      ensures Abs() == M[n.path := Stamp(M[n.path], t, now)]
    {
      n.owners := n.owners[t := now];
    }

    // ----- insertion -----

    /** A tenant new to n is charged for its characters. */
    method Charge(n: Node, tenant: Tenant, ghost M: Nodes)
      requires Linked() && M == Abs() && tenant in charCount
      modifies `charCount
      ensures Linked() && M == Abs()
      ensures Charges(old(charCount), charCount, tenant, if tenant in n.owners then 0 else |n.text|)
    {
      if tenant !in n.owners {
        charCount := charCount[tenant := charCount[tenant] + |n.text|];
      }
    }

    /** No child matches: the rest of the text becomes a new leaf. */
    method InsertLeaf(curr: Node, rest: string, tenant: Tenant, now: Time, ghost text: string, ghost M: Nodes)
      returns (n: Node)
      requires Linked() && M == Abs() && In(curr) && tenant in charCount
      requires rest != "" && rest[0] !in curr.children && text == curr.path + rest
      modifies `at, `charCount, curr`children
      ensures Linked() && In(n) && n.path == text && fresh(at.Values - old(at.Values))
      ensures LeafRound(M, Abs(), old(charCount), charCount, curr.path, n.path, text, tenant, now)
    {
      NoChildNoNode(curr, text);
      ChargeLeaf(tenant, |rest|, M);
      n := Graft(curr, rest, tenant, now, M);
      OnlyAdded(n);
    }

    method ChargeLeaf(tenant: Tenant, count: nat, ghost M: Nodes)
      requires Linked() && M == Abs() && tenant in charCount
      modifies `charCount
      ensures Linked() && M == Abs()
      ensures Charges(old(charCount), charCount, tenant, count)
    {
      charCount := charCount[tenant := charCount[tenant] + count];
    }

    /** The text covers the whole edge to matched: walk on. */
    method InsertWalk(curr: Node, matched: Node, tenant: Tenant, now: Time, ghost text: string, ghost M: Nodes)
      requires Linked() && M == Abs() && In(curr) && In(matched) && tenant in charCount
      requires matched.path != "" && matched.parent == curr && matched.path <= text
      modifies `charCount, matched`owners
      ensures Linked()
      ensures WalkRound(M, Abs(), old(charCount), charCount, curr.path, matched.path, text, tenant, now)
    {
      assert UpLink(matched.path);
      Charge(matched, tenant, M);
      SetOwner(matched, tenant, now, M);
    }

    /** The text leaves the edge to matched after shared characters, at way: the edge is cut there. */
    method InsertSplit(curr: Node, matched: Node, shared: nat, tenant: Tenant, now: Time,
                       ghost way: string, ghost text: string, ghost M: Nodes)
      returns (n: Node)
      requires Linked() && M == Abs() && In(curr) && In(matched) && tenant in charCount
      requires matched.path != "" && matched.parent == curr && 0 < shared < |matched.text|
      requires way < matched.path && |way| == |curr.path| + shared && way <= text
      requires way < text ==> matched.path[|way|] != text[|way|]
      modifies `at, `charCount, curr`children, matched`text, matched`parent
      ensures Linked() && In(n) && n.path == way && fresh(at.Values - old(at.Values))
      ensures SplitRound(M, Abs(), old(charCount), charCount, curr.path, n.path, matched.path, text, tenant, now)
    {
      assert UpLink(matched.path);
      ghost var o := M[matched.path];
      n := Split(curr, matched, shared, way, M);
      Charge(n, tenant, M[way := o]);
      SetOwner(n, tenant, now, M[way := o]);
      Overwritten(M, way, o, Stamp(o, tenant, now));
      OnlyAdded(n);
    }

    twostate lemma OnlyAdded(new n: Node)
      requires !old(allocated(n)) && n.path !in old(at) && at == old(at)[n.path := n]
      ensures fresh(at.Values - old(at.Values))
    {
    }

    /** text continues along an edge below prev: how far? */
    method Follow(text: string, idx: nat, prev: Node) returns (matched: Node, shared: nat, ghost way: string)
      requires Linked() && In(prev) && idx < |text| && prev.path == text[..idx]
      requires text[idx] in prev.children
      ensures matched == prev.children[text[idx]]
      ensures In(matched) && matched.parent == prev && matched.path != "" && IsParent(at.Keys, prev.path, matched.path)
      ensures 0 < shared <= |matched.text| && idx + shared <= |text|
      ensures way == text[..idx + shared] && prev.path < way && |way| == |prev.path| + shared
      ensures if shared == |matched.text| then way == matched.path else way < matched.path
      ensures way < matched.path && way < text ==> matched.path[|way|] != text[|way|]
    {
      matched := prev.children[text[idx]];
      assert DownLink(prev.path, text[idx]);
      assert UpLink(matched.path);
      shared := SharedPrefixCount(matched.text, text[idx..]);
      way := text[..idx + shared];
      SharedOnPath(prev.path, matched.path, text, shared);
    }

    /** The next character of the text leads to a child. */
    method InsertMatched(text: string, idx: nat, prev: Node, tenant: Tenant, now: Time, ghost M: Nodes)
      returns (next: Node, idx': nat)
      requires Linked() && M == Abs() && In(prev) && idx < |text| && prev.path == text[..idx] && tenant in charCount
      requires text[idx] in prev.children
      modifies this, at.Values
      ensures Linked() && In(next) && idx' <= |text| && next.path == text[..idx']
      ensures fresh(at.Values - old(at.Values))
      ensures Round(M, Abs(), old(charCount), charCount, prev.path, next.path, text, tenant, now)
    {
      var matched, shared, way := Follow(text, idx, prev);
      next := InsertAlong(prev, matched, shared, tenant, now, way, text, M);
      idx' := idx + shared;
    }

    /** The text follows the edge to matched for shared characters, as far as way. */
    method InsertAlong(prev: Node, matched: Node, shared: nat, tenant: Tenant, now: Time,
                       ghost way: string, ghost text: string, ghost M: Nodes)
      returns (next: Node)
      requires Linked() && M == Abs() && In(prev) && In(matched) && tenant in charCount
      requires matched.path != "" && matched.parent == prev && 0 < shared <= |matched.text|
      requires |way| == |prev.path| + shared && way <= text
      requires if shared == |matched.text| then way == matched.path else way < matched.path
      requires way < matched.path && way < text ==> matched.path[|way|] != text[|way|]
      modifies this, at.Values
      ensures Linked() && In(next) && next.path == way && fresh(at.Values - old(at.Values))
      ensures Round(M, Abs(), old(charCount), charCount, prev.path, way, text, tenant, now)
    {
      if shared < |matched.text| {
        next := InsertSplit(prev, matched, shared, tenant, now, way, text, M);
      } else {
        InsertWalk(prev, matched, tenant, now, text, M);
        next := matched;
      }
    }

    /** Where the text goes next is decided by its next character. */
    method InsertNext(text: string, idx: nat, prev: Node, tenant: Tenant, now: Time, ghost M: Nodes)
      returns (next: Node, idx': nat)
      requires Linked() && M == Abs() && In(prev) && idx < |text| && prev.path == text[..idx] && tenant in charCount
      modifies this, at.Values
      ensures Linked() && In(next) && idx' <= |text| && next.path == text[..idx']
      ensures fresh(at.Values - old(at.Values))
      ensures Round(M, Abs(), old(charCount), charCount, prev.path, next.path, text, tenant, now)
    {
      if text[idx] in prev.children {
        next, idx' := InsertMatched(text, idx, prev, tenant, now, M);
      } else {
        assert prev.path + text[idx..] == text;
        next := InsertLeaf(prev, text[idx..], tenant, now, text, M);
        idx' := |text|;
        assert text == text[..idx'];
      }
    }

    /** One round of an insertion into M0: from the node that spells text[..idx] to the next one on the way. */
    method InsertRound(text: string, idx: nat, prev: Node, tenant: Tenant, now: Time, ghost M0: Nodes)
      returns (next: Node, idx': nat)
      requires Linked() && In(prev) && idx < |text| && prev.path == text[..idx] && tenant in charCount
      requires Inserting(M0, Abs(), charCount, prev.path, text, tenant, now)
      modifies this, at.Values
      ensures Linked() && In(next) && idx < idx' <= |text| && next.path == text[..idx'] && tenant in charCount
      ensures fresh(at.Values - old(at.Values))
      ensures Inserting(M0, Abs(), charCount, next.path, text, tenant, now)
    {
      ghost var M := Abs();
      next, idx' := InsertNext(text, idx, prev, tenant, now, M);
      RoundAdvances(M0, M, Abs(), old(charCount), charCount, prev.path, next.path, text, tenant, now);
    }

    /** The tenant is known at the root, with a count. */
    method InsertRoot(tenant: Tenant, now: Time, ghost text: string, ghost M: Nodes)
      requires Valid() && M == Abs()
      modifies `charCount, root`owners
      ensures Linked() && tenant in charCount
      ensures Inserting(M, Abs(), charCount, "", text, tenant, now)
    {
      InsertionStarts(M, M["" := Stamp(M[""], tenant, now)], charCount,
        if tenant in charCount then charCount else charCount[tenant := 0], text, tenant, now);
      SetOwner(root, tenant, now, M);
      StartCount(tenant, Abs());
    }

    /** A new tenant's count starts at zero. */
    method StartCount(tenant: Tenant, ghost M: Nodes)
      requires Linked() && M == Abs()
      modifies `charCount
      ensures Linked() && M == Abs()
      ensures charCount == if tenant in old(charCount) then old(charCount) else old(charCount)[tenant := 0]
    {
      if tenant !in charCount {
        charCount := charCount[tenant := 0];
      }
    }

    /** insert: every prefix of text is stamped for tenant, and nothing else changes. */
    method Insert(text: string, tenant: Tenant, now: Time)
      requires Valid()
      modifies this, at.Values
      ensures Valid() && fresh(at.Values - old(at.Values))
      ensures RadixRuns.Step(old(Abs()), RadixRuns.Insert(text, tenant, now), Abs())
      ensures Abs().Keys == InsertedNames(old(Abs()).Keys, text)
    {
      InsertRoot(tenant, now, text, Abs());
      var prev, idx := root, 0;
      while idx < |text|
        invariant idx <= |text| && Linked() && In(prev) && prev.path == text[..idx]
        invariant fresh(at.Values - old(at.Values))
        invariant Inserting(old(Abs()), Abs(), charCount, prev.path, text, tenant, now)
        invariant tenant in charCount
        decreases |text| - idx
      {
        prev, idx := InsertRound(text, idx, prev, tenant, now, old(Abs()));
      }
      assert text[..idx] == text;
      InsertionEnds(old(Abs()), Abs(), charCount, text, tenant, now);
    }

    // ----- matching -----

    lemma OnlyRootIsOrphan(n: Node)
      requires Linked() && In(n)
      ensures n.parent == null <==> n.path == ""
    {
      if n.path != "" { assert UpLink(n.path); }
    }

    /** The nodes longer than this are stamped when the upward walk is about to visit node. */
    static ghost function Remaining(node: Node?): int
    {
      if node == null then -1 else |node.path|
    }

    /** The first phase of prefix_match: how far down does text lead? */
    method Locate(text: string) returns (curr: Node, idx: nat)
      requires Linked()
      ensures In(curr) && idx <= |text|
      ensures Covers(at.Keys, curr.path, text[..idx])
      ensures idx < |text| ==> !Spelled(at.Keys, text[..idx + 1])
    {
      curr, idx := root, 0;
      while idx < |text|
        invariant idx <= |text| && In(curr) && curr.path == text[..idx]
        decreases |text| - idx
      {
        if text[idx] !in curr.children {
          NoChildNoNode(curr, text);
          break;
        }
        var matched, shared, way := Follow(text, idx, curr);
        SegmentOf(at.Keys, curr.path, matched.path, way);
        if shared < |matched.text| {
          if way < text {
            EdgeLeft(at.Keys, curr.path, matched.path, way, text);
          }
          return matched, idx + shared;
        }
        curr, idx := matched, idx + shared;
      }
    }

    /** The upward walk after a match: every node from curr to the root is stamped. */
    method StampUp(curr: Node, tenant: Tenant, now: Time, ghost M: Nodes)
      requires Linked() && M == Abs() && In(curr)
      modifies at.Values`owners
      ensures Linked()
      ensures Abs() == StampPath(M, curr.path, tenant, now)
    {
      ghost var path := curr.path;
      ClimbEnds(M, path, tenant, now);
      var node: Node? := curr;
      while node != null
        invariant Linked() && (node != null ==> In(node) && node.path <= path)
        invariant Abs() == StampedBelow(M, path, Remaining(node), tenant, now)
        decreases Remaining(node) + 1
      {
        node := StampOne(node, tenant, now, M, path);
      }
    }

    method StampOne(node: Node, tenant: Tenant, now: Time, ghost M: Nodes, ghost path: string) returns (next: Node?)
      requires Linked() && In(node) && node.path <= path
      requires Abs() == StampedBelow(M, path, |node.path|, tenant, now)
      modifies node`owners
      ensures Linked() && Remaining(next) < |node.path|
      ensures next != null ==> In(next) && next.path <= path
      ensures Abs() == StampedBelow(M, path, Remaining(next), tenant, now)
    {
      OnlyRootIsOrphan(node);
      if node.path != "" {
        assert UpLink(node.path);
        ClimbStep(M, path, node.path, node.parent.path, tenant, now);
      } else {
        ClimbRoot(M, path, tenant, now);
      }
      SetOwner(node, tenant, now, Abs());
      next := node.parent;
    }

    /** A match counts as a use by tenant of everything on the way to curr. */
    method Touch(curr: Node, tenant: Tenant, now: Time, ghost M: Nodes)
      requires Valid() && M == Abs() && In(curr) && tenant in curr.owners
      modifies at.Values`owners
      ensures Valid()
      ensures Abs() == StampPath(M, curr.path, tenant, now)
    {
      StampPathSound(M, charCount, curr.path, tenant, now);
      StampUp(curr, tenant, now, M);
    }

    /** Some owner of curr, or a placeholder. */
    method AnyOwner(curr: Node) returns (tenant: Tenant)
      ensures if curr.owners == map[] then tenant == "empty" else tenant in curr.owners
    {
      if curr.owners == map[] {
        tenant := "empty";
      } else {
        assert exists t :: t in curr.owners;
        tenant :| tenant in curr.owners;
      }
    }

    /** The second phase of prefix_match: an owner of curr is credited with the match. The placeholder leaves no
        trace. */
    method Credit(curr: Node, now: Time, ghost M: Nodes) returns (tenant: Tenant)
      requires Valid() && M == Abs() && In(curr)
      modifies at.Values`owners
      ensures Valid()
      ensures if M[curr.path] == map[] then tenant == "empty" else tenant in M[curr.path]
      ensures Abs() == if tenant == "empty" then M else StampPath(M, curr.path, tenant, now)
    {
      tenant := AnyOwner(curr);
      if tenant != "empty" {
        Touch(curr, tenant, now, M);
      }
    }

    method FindLongest(text: string, ghost M: Nodes) returns (curr: Node, found: string)
      requires Linked() && M == Abs()
      ensures In(curr) && LongestSpelled(M.Keys, text, found) && Covers(M.Keys, curr.path, found)
      ensures Linked() && M == Abs()
    {
      NamesAre(at.Keys);
      var idx: nat;
      curr, idx := Locate(text);
      found := text[..idx];
      SpelledLongest(M.Keys, text, idx);
    }

    /** prefix_match: the longest prefix of text in the tree, and a tenant that holds it. */
    method PrefixMatch(text: string, now: Time) returns (found: string, tenant: Tenant, ghost path: string)
      requires Valid()
      modifies at.Values`owners
      ensures Valid()
      ensures RadixRuns.Matched(old(Abs()), text, now, found, tenant, path, Abs())
      ensures RadixRuns.Step(old(Abs()), RadixRuns.Match(text, now), Abs())
    {
      ghost var M := Abs();
      var curr: Node;
      curr, found := FindLongest(text, M);
      path := curr.path;
      tenant := Credit(curr, now, M);
      RadixRuns.MatchIsStep(M, text, now, found, tenant, path, Abs());
    }

    /** The walk of prefix_match_tenant has ended at curr, idx characters into text. */
    ghost predicate EndsFor(text: string, idx: nat, curr: Node, tenant: Tenant)
      reads `at, at.Values`owners
    {
      && Branching(at.Keys) && In(curr) && idx <= |text|
      && Covers(at.Keys, curr.path, text[..idx])
      && (idx < |text| ==> tenant !in View(Abs(), text[..idx + 1]))
    }

    /** One step of that walk, through a child of curr. */
    method StepFor(text: string, idx: nat, curr: Node, tenant: Tenant) returns (next: Node, idx': nat, more: bool)
      requires Linked() && In(curr) && idx < |text| && curr.path == text[..idx] && text[idx] in curr.children
      ensures In(next) && idx' <= |text|
      ensures more ==> idx < idx' && next.path == text[..idx'] && tenant in next.owners
      ensures !more ==> EndsFor(text, idx', next, tenant) && (next == curr || tenant in next.owners)
    {
      var matched, shared, way := Follow(text, idx, curr);
      if tenant !in matched.owners {
        NotTheirs(curr, matched, way, tenant, text[..idx + 1]);
        return curr, idx, false;
      }
      if shared < |matched.text| {
        EndsOnEdge(curr, matched, way, tenant, text, idx + shared);
      }
      return matched, idx + shared, shared == |matched.text|;
    }

    /** The walk ends on the edge from curr to matched. */
    lemma EndsOnEdge(curr: Node, matched: Node, way: string, tenant: Tenant, text: string, idx: nat)
      requires Linked() && In(curr) && In(matched) && IsParent(at.Keys, curr.path, matched.path)
      requires idx <= |text| && way == text[..idx] && curr.path < way < matched.path
      requires way < text ==> matched.path[|way|] != text[|way|]
      ensures EndsFor(text, idx, matched, tenant)
    {
      SegmentOf(at.Keys, curr.path, matched.path, way);
      if way < text {
        EdgeLeft(at.Keys, curr.path, matched.path, way, text);
        assert !Spelled(Abs().Keys, text[..|way| + 1]);
      }
    }

    /** The first phase of prefix_match_tenant: how far down does text lead through nodes of tenant? */
    method LocateFor(text: string, tenant: Tenant) returns (curr: Node, idx: nat)
      requires Linked()
      ensures EndsFor(text, idx, curr, tenant) && (curr != root ==> tenant in curr.owners)
    {
      curr, idx := root, 0;
      var more := true;
      while more && idx < |text|
        invariant idx <= |text| && In(curr) && (more ==> curr.path == text[..idx])
        invariant curr != root ==> tenant in curr.owners
        invariant !more ==> EndsFor(text, idx, curr, tenant)
        decreases more, |text| - idx
      {
        if text[idx] in curr.children {
          curr, idx, more := StepFor(text, idx, curr, tenant);
        } else {
          NoChildNoNode(curr, text);
          assert !Spelled(Abs().Keys, text[..idx + 1]);
          more := false;
        }
      }
    }

    lemma NotTheirs(curr: Node, matched: Node, way: string, tenant: Tenant, s: string)
      requires Linked() && In(curr) && In(matched) && IsParent(at.Keys, curr.path, matched.path)
      requires curr.path < s && s <= way && way <= matched.path && tenant !in matched.owners
      ensures tenant !in View(Abs(), s)
    {
      SegmentOf(at.Keys, curr.path, matched.path, s);
      ViewIs(Abs(), matched.path, s);
    }

    /** prefix_match_tenant: the longest prefix of text that tenant holds. */
    method PrefixMatchTenant(text: string, tenant: Tenant, now: Time) returns (found: string, ghost path: string)
      requires Valid()
      modifies at.Values`owners
      ensures Valid()
      ensures RadixRuns.MatchedFor(old(Abs()), text, tenant, now, found, path, Abs())
      ensures RadixRuns.Step(old(Abs()), RadixRuns.MatchFor(text, tenant, now), Abs())
    {
      ghost var M := Abs();
      var curr: Node;
      curr, found := FindHeld(text, tenant, M);
      path := curr.path;
      if tenant in curr.owners {
        Touch(curr, tenant, now, M);
      }
      RadixRuns.MatchForIsStep(M, text, tenant, now, found, path, Abs());
    }

    method FindHeld(text: string, tenant: Tenant, ghost M: Nodes) returns (curr: Node, found: string)
      requires Linked() && M == Abs() && Owned(M)
      ensures In(curr) && LongestHeld(M, tenant, text, found) && Covers(M.Keys, curr.path, found)
      ensures tenant !in M[curr.path] ==> found == ""
      ensures Linked() && M == Abs()
    {
      NamesAre(at.Keys);
      var idx: nat;
      curr, idx := LocateFor(text, tenant);
      assert Linked() == old(Linked()) && Abs() == old(Abs());
      found := text[..idx];
      FoundIsHeld(curr, found, tenant);
      HeldLongest(M, tenant, text, idx);
    }

    lemma FoundIsHeld(curr: Node, found: string, tenant: Tenant)
      requires Linked() && In(curr) && Covers(at.Keys, curr.path, found)
      requires curr != root ==> tenant in curr.owners
      ensures tenant in curr.owners <==> tenant in View(Abs(), found)
      ensures tenant !in curr.owners ==> found == ""
    {
      ViewIs(Abs(), curr.path, found);
    }

    // ----- traversal -----

    /** The children of n, in some order. */
    method Kids(n: Node) returns (kids: seq<Node>)
      requires Linked() && In(n)
      ensures forall k :: k in kids ==> In(k)
      ensures ChildrenOf(at.Keys, n.path, Paths(kids))
    {
      kids := [];
      var keys := n.children.Keys;
      while keys != {}
        decreases keys
        invariant keys <= n.children.Keys
        invariant forall c :: c in n.children.Keys - keys ==> n.children[c] in kids
        invariant forall k :: k in kids ==> exists c :: c in n.children.Keys - keys && n.children[c] == k
        invariant forall i, j :: 0 <= i < j < |kids| ==> kids[i] != kids[j]
      {
        var c :| c in keys;
        KidsDiffer(n, c);
        assert n.children[c] !in kids;
        kids := kids + [n.children[c]];
        keys := keys - {c};
      }
      KidsAreChildren(n, kids);
    }

    lemma KidsDiffer(n: Node, c: char)
      requires Linked() && In(n) && c in n.children
      ensures forall d :: d in n.children && d != c ==> n.children[d] != n.children[c]
    {
      assert DownLink(n.path, c);
      forall d | d in n.children && d != c ensures n.children[d] != n.children[c] {
        assert DownLink(n.path, d);
      }
    }

    lemma KidsAreChildren(n: Node, kids: seq<Node>)
      requires Linked() && In(n)
      requires forall c :: c in n.children ==> n.children[c] in kids
      requires forall k :: k in kids ==> exists c :: c in n.children && n.children[c] == k
      requires forall i, j :: 0 <= i < j < |kids| ==> kids[i] != kids[j]
      ensures forall k :: k in kids ==> In(k)
      ensures ChildrenOf(at.Keys, n.path, Paths(kids))
    {
      var ps := Paths(kids);
      forall k | k in kids ensures In(k) && IsParent(at.Keys, n.path, k.path) {
        var c :| c in n.children && n.children[c] == k;
        assert DownLink(n.path, c);
        assert UpLink(k.path);
      }
      forall i | 0 <= i < |ps| ensures ps[i] in at.Keys && IsParent(at.Keys, n.path, ps[i]) {
        assert kids[i] in kids;
      }
      forall q | q in at && IsParent(at.Keys, n.path, q) ensures q in ps {
        ChildIsKid(n, kids, q);
      }
      PathsDiffer(kids);
    }

    lemma PathsDiffer(kids: seq<Node>)
      requires forall k :: k in kids ==> In(k)
      requires forall i, j :: 0 <= i < j < |kids| ==> kids[i] != kids[j]
      ensures NoRepeats(Paths(kids))
    {
      var ps := Paths(kids);
      forall i, j | 0 <= i < j < |ps| ensures ps[i] != ps[j] {
        assert kids[i] in kids && kids[j] in kids;
      }
    }

    lemma ChildIsKid(n: Node, kids: seq<Node>, q: string)
      requires Linked() && In(n) && q in at && IsParent(at.Keys, n.path, q)
      requires forall c :: c in n.children ==> n.children[c] in kids
      ensures q in Paths(kids)
    {
      ParentIsUnique(q, n.path);
      var i :| 0 <= i < |kids| && kids[i] == at[q];
      assert Paths(kids)[i] == q;
    }

    /** The name of the parent determines the parent link. */
    lemma ParentIsUnique(q: string, r: string)
      requires Linked() && q in at && IsParent(at.Keys, r, q)
      ensures at[q].parent == at[r] && q[|r|] in at[r].children && at[r].children[q[|r|]] == at[q]
    {
      assert UpLink(q);
      var p := at[q].parent.path;
      assert p <= r && r <= p;
      assert p == r;
    }

    ghost function Unvisited(order: seq<Node>): set<string>
      reads `at
    {
      set p | p in at && p !in Paths(order)
    }

    lemma VisitShrinks(order: seq<Node>, n: Node)
      requires In(n) && n.path !in Paths(order)
      ensures Unvisited(order + [n]) < Unvisited(order)
    {
      PathsAppend(order, [n]);
      assert n.path in Unvisited(order);
      assert Paths(order + [n])[|order|] == n.path;
    }

    /** One step of a depth-first visit: the top of the stack is visited and its children are pushed. */
    method Visit(order: seq<Node>, stack: seq<Node>) returns (order': seq<Node>, stack': seq<Node>)
      requires Linked() && stack != [] && Visiting(order, stack)
      ensures Visiting(order', stack') && Unvisited(order') < Unvisited(order)
    {
      var curr := stack[|stack| - 1];
      var rest := stack[..|stack| - 1];
      assert stack == rest + [curr];
      var kids := Kids(curr);
      assert Linked() == old(Linked());
      stack' := rest + kids;
      order' := order + [curr];
      Visited(order, rest, curr, kids);
    }

    /** The nodes in order have been visited, those on the stack are next. */
    ghost predicate Visiting(order: seq<Node>, stack: seq<Node>)
      reads `at
    {
      && (forall n :: n in order ==> In(n)) && (forall n :: n in stack ==> In(n))
      && Frontier(at.Keys, Paths(order), Paths(stack))
    }

    lemma VisitedIn(order: seq<Node>, rest: seq<Node>, curr: Node, kids: seq<Node>)
      requires (forall n :: n in order ==> In(n)) && forall n :: n in rest + [curr] ==> In(n)
      requires forall k :: k in kids ==> In(k)
      ensures (forall n :: n in order + [curr] ==> In(n)) && forall n :: n in rest + kids ==> In(n)
    {
      assert curr in rest + [curr];
    }

    lemma Visited(order: seq<Node>, rest: seq<Node>, curr: Node, kids: seq<Node>)
      requires Linked() && In(curr) && Visiting(order, rest + [curr])
      requires (forall k :: k in kids ==> In(k)) && ChildrenOf(at.Keys, curr.path, Paths(kids))
      ensures Visiting(order + [curr], rest + kids) && Unvisited(order + [curr]) < Unvisited(order)
    {
      VisitedIn(order, rest, curr, kids);
      PathsAppend(rest, [curr]);
      assert Paths([curr]) == [curr.path];
      FrontierStep(at.Keys, Paths(order), Paths(rest), curr.path, Paths(kids));
      PathsAppend(order, [curr]);
      PathsAppend(rest, kids);
      VisitShrinks(order, curr);
    }

    /** Every node of the tree, each once, in some depth-first order. */
    method Traverse() returns (order: seq<Node>)
      requires Linked()
      ensures forall n :: n in order ==> In(n)
      ensures forall p :: p in at ==> at[p] in order
      ensures NoRepeats(Paths(order))
    {
      var stack := [root];
      order := [];
      while stack != []
        invariant Visiting(order, stack)
        decreases Unvisited(order)
      {
        order, stack := Visit(order, stack);
      }
      forall p | p in at ensures at[p] in order {
        var i :| 0 <= i < |order| && Paths(order)[i] == p;
        assert order[i] in order;
      }
    }

    // ----- giving up ownership -----

    /** leaf_of: the tenants for which n is a leaf. */
    method LeafOf(n: Node) returns (leaves: set<Tenant>)
      requires Linked() && Owned(Abs()) && In(n)
      ensures forall t :: t in leaves <==> Leaf(Abs(), n.path, t)
    {
      var candidates: map<Tenant, bool> := map t | t in n.owners :: true;
      var kids := Kids(n);
      for i := 0 to |kids|
        invariant forall t :: t in candidates && candidates[t] <==>
          t in n.owners && forall j :: 0 <= j < i ==> t !in kids[j].owners
      {
        candidates := candidates + map t | t in kids[i].owners :: false;
      }
      leaves := set t | t in candidates && candidates[t];
      LeavesByKids(n, kids);
    }

    lemma LeavesByKids(n: Node, kids: seq<Node>)
      requires Linked() && Owned(Abs()) && In(n)
      requires (forall k :: k in kids ==> In(k)) && ChildrenOf(at.Keys, n.path, Paths(kids))
      ensures forall t :: Leaf(Abs(), n.path, t) <==>
        t in n.owners && forall j :: 0 <= j < |kids| ==> t !in kids[j].owners
    {
      forall t
        ensures Leaf(Abs(), n.path, t) <==> t in n.owners && forall j :: 0 <= j < |kids| ==> t !in kids[j].owners
      {
        if t in n.owners { IsLeafByKids(n, kids, t); }
      }
    }

    lemma IsLeafByKids(n: Node, kids: seq<Node>, t: Tenant)
      requires Owned(Abs()) && In(n) && t in n.owners
      requires (forall k :: k in kids ==> In(k)) && ChildrenOf(at.Keys, n.path, Paths(kids))
      ensures Leaf(Abs(), n.path, t) <==> forall j :: 0 <= j < |kids| ==> t !in kids[j].owners
    {
      assert Abs().Keys == at.Keys;
      LeafByKids(Abs(), n.path, t, Paths(kids));
      KidsOwn(kids, t);
    }

    lemma KidsOwn(kids: seq<Node>, t: Tenant)
      requires forall k :: k in kids ==> In(k)
      ensures forall q :: q in Paths(kids) ==> q in at
      ensures (forall q :: q in Paths(kids) ==> t !in at[q].owners) <==>
        forall j :: 0 <= j < |kids| ==> t !in kids[j].owners
    {
      var ps := Paths(kids);
      forall j | 0 <= j < |kids| ensures ps[j] in ps && ps[j] in at && at[ps[j]] == kids[j] {
        assert kids[j] in kids;
      }
      forall q | q in ps ensures exists j :: 0 <= j < |kids| && ps[j] == q {
      }
    }

    /** A node that loses its last owner is childless. */
    lemma LastOwnerIsChildless(n: Node, t: Tenant)
      requires Linked() && Owned(Abs()) && In(n) && Leaf(Abs(), n.path, t)
      ensures n.owners.Keys == {t} && n.path != "" ==> n.children == map[]
    {
      if n.owners.Keys == {t} && n.path != "" {
        forall c | c in n.children ensures n.children[c].path in Abs().Keys && n.path < n.children[c].path {
          assert DownLink(n.path, c);
        }
        LastOwnerIsLast(Abs(), n.path, t);
        assert forall c :: c !in n.children;
      }
    }

    /** t gives up n; a node without owners and children is unlinked. */
    method Disown(n: Node, t: Tenant)
      requires Linked() && In(n) && t in n.owners
      requires n.owners.Keys == {t} && n.path != "" ==> n.children == map[]
      modifies `at, n`owners, at.Values`children
      ensures Linked()
      ensures Abs() == RemoveOwner(old(Abs()), n.path, t)
      ensures at.Keys <= old(at.Keys) && forall p :: p in at ==> at[p] == old(at)[p]
    {
      OnlyRootIsOrphan(n);
      SoleOwner(n.owners, t);
      n.owners := n.owners - {t};
      assert Abs() == old(Abs())[n.path := n.owners];
      if n.children == map[] && n.owners == map[] && n.parent != null {
        Unlink(n);
      }
    }

    method Unlink(n: Node)
      requires Linked() && In(n) && n.parent != null && n.children == map[]
      modifies `at, at.Values`children
      ensures Linked()
      ensures at == old(at) - {n.path}
      ensures Abs() == old(Abs()) - {n.path}
    {
      OnlyRootIsOrphan(n);
      assert UpLink(n.path);
      forall q | q in at ensures !(n.path < q) {
        if n.path < q { ChildToward(n.path, q); }
      }
      n.parent.children := n.parent.children - {n.text[0]};
      at := at - {n.path};
      UnlinkedLinks(n);
    }

    twostate lemma UnlinkedLinks(n: Node)
      requires old(Linked() && In(n)) && n.path != "" && n.parent != null && n.children == map[] && n.text != ""
      requires at == old(at) - {n.path} && forall q :: q in old(at) ==> !(n.path < q)
      requires forall p :: p in old(at) ==> old(at)[p].text == old(at[p].text) && old(at)[p].parent == old(at[p].parent)
      requires forall p :: p in old(at) && old(at)[p] != n.parent ==> old(at)[p].children == old(at[p].children)
      requires n.parent.children == old(n.parent.children) - {n.text[0]}
      ensures Linked()
    {
      assert old(UpLink(n.path));
      PruneShape(old(at.Keys), n.path);
      assert at.Keys == old(at.Keys) - {n.path};
      forall q | q in at && q != "" ensures UpLink(q) {
        assert old(UpLink(q));
      }
      forall q, c | q in at && c in at[q].children ensures DownLink(q, c) {
        assert old(DownLink(q, c));
      }
    }

    // ----- eviction -----

    /** The candidates carry the timestamps of the nodes they stand for, and none occurs twice. */
    ghost predicate Accurate(pq: multiset<Entry>)
      reads `at, at.Values`owners
    {
      forall e :: e in pq ==>
        pq[e] == 1 && In(e.node) && e.tenant in e.node.owners && e.timestamp == e.node.owners[e.tenant]
    }

    lemma Pushed(pq: multiset<Entry>, e: Entry)
      requires Accurate(pq) && In(e.node) && e.tenant in e.node.owners && e.timestamp == e.node.owners[e.tenant]
      requires (e.node.path, e.tenant) !in Named(pq)
      ensures Accurate(pq + multiset{e}) && Named(pq + multiset{e}) == Named(pq) + {(e.node.path, e.tenant)}
    {
      ghost var name := (e.node.path, e.tenant);
      assert e in pq ==> name in Named(pq);
      assert forall f :: f in pq + multiset{e} <==> f in pq || f == e;
    }

    lemma Popped(pq: multiset<Entry>, e: Entry)
      requires Accurate(pq) && e in pq
      ensures Accurate(pq - multiset{e}) && Named(pq - multiset{e}) == Named(pq) - {(e.node.path, e.tenant)}
    {
      assert forall f :: f in pq - multiset{e} <==> f in pq && f != e;
    }

    /** Every tenant for which n is a leaf becomes a candidate. */
    method PushLeaves(pq: multiset<Entry>, n: Node) returns (pq': multiset<Entry>)
      requires Linked() && Owned(Abs()) && In(n)
      requires Accurate(pq) && forall t :: (n.path, t) !in Named(pq)
      ensures Accurate(pq')
      ensures forall x :: x in Named(pq') <==> x in Named(pq) || (x.0 == n.path && Leaf(Abs(), n.path, x.1))
    {
      var leaves := LeafOf(n);
      pq' := PushAll(pq, n, leaves);
    }

    static ghost function NamesAt(p: string, ts: set<Tenant>): Names
    {
      set t | t in ts :: (p, t)
    }

    method PushAll(pq: multiset<Entry>, n: Node, leaves: set<Tenant>) returns (pq': multiset<Entry>)
      requires In(n) && leaves <= n.owners.Keys && Accurate(pq) && forall t :: (n.path, t) !in Named(pq)
      ensures Accurate(pq') && Named(pq') == Named(pq) + NamesAt(n.path, leaves)
    {
      pq' := pq;
      var todo := leaves;
      while todo != {}
        invariant todo <= leaves && Accurate(pq') && Named(pq') == Named(pq) + NamesAt(n.path, leaves - todo)
        decreases todo
      {
        var t :| t in todo;
        pq' := Push(pq', n, t);
        NameAdded(n.path, leaves, todo, t);
        todo := todo - {t};
      }
    }

    static lemma NameAdded(p: string, leaves: set<Tenant>, todo: set<Tenant>, t: Tenant)
      requires t in todo && todo <= leaves
      ensures NamesAt(p, leaves - (todo - {t})) == NamesAt(p, leaves - todo) + {(p, t)}
    {
      assert leaves - (todo - {t}) == leaves - todo + {t};
    }

    method Push(pq: multiset<Entry>, n: Node, t: Tenant) returns (pq': multiset<Entry>)
      requires In(n) && t in n.owners && Accurate(pq) && (n.path, t) !in Named(pq)
      ensures Accurate(pq') && Named(pq') == Named(pq) + {(n.path, t)}
    {
      Pushed(pq, Entry(n.owners[t], t, n));
      pq' := pq + multiset{Entry(n.owners[t], t, n)};
    }

    /** The candidates found once the nodes named in done have been looked at. */
    ghost predicate Collected(pq: multiset<Entry>, done: seq<string>)
      reads `at, at.Values`owners
    {
      Accurate(pq) && forall x :: x in Named(pq) <==> x.0 in done && Leaf(Abs(), x.0, x.1)
    }

    method CollectNext(order: seq<Node>, i: nat, pq: multiset<Entry>) returns (pq': multiset<Entry>)
      requires Linked() && Owned(Abs()) && i < |order| && In(order[i]) && NoRepeats(Paths(order))
      requires Collected(pq, Paths(order)[..i])
      ensures Collected(pq', Paths(order)[..i + 1])
    {
      var n := order[i];
      assert Paths(order)[..i + 1] == Paths(order)[..i] + [n.path];
      assert n.path !in Paths(order)[..i];
      pq' := PushLeaves(pq, n);
    }

    /** The leaves of all tenants are the first candidates. */
    method CollectLeaves() returns (pq: multiset<Entry>)
      requires Linked() && Owned(Abs())
      ensures Accurate(pq)
      ensures forall x :: x in Named(pq) <==> Leaf(Abs(), x.0, x.1)
    {
      var order := Traverse();
      pq := multiset{};
      for i := 0 to |order|
        invariant Collected(pq, Paths(order)[..i])
      {
        assert order[i] in order;
        pq := CollectNext(order, i, pq);
      }
      assert Paths(order)[..|order|] == Paths(order);
      TraversedAll(order);
    }

    lemma TraversedAll(order: seq<Node>)
      requires Linked() && forall p :: p in at ==> at[p] in order
      ensures forall p :: p in at ==> p in Paths(order)
    {
      forall p | p in at ensures p in Paths(order) {
        var i :| 0 <= i < |order| && order[i] == at[p];
        assert Paths(order)[i] == p;
      }
    }

    /** The count of a tenant is reduced by the characters of a node it is about to give up. */
    method Refund(n: Node, tenant: Tenant, ghost M: Nodes)
      requires Valid() && M == Abs() && In(n) && n.path != "" && Leaf(M, n.path, tenant)
      modifies `charCount
      ensures Linked() && Abs() == M && n.parent != null && n.parent.path in RemoveOwner(M, n.path, tenant)
      ensures Sound(RemoveOwner(M, n.path, tenant), charCount)
    {
      assert UpLink(n.path);
      CountCoversLeaf(M, charCount, n.parent.path, n.path, tenant);
      ghost var C, r := charCount, n.parent.path;
      LowerCount(tenant, |n.text|, M);
      RefundSound(M, RemoveOwner(M, n.path, tenant), C, charCount, r, n.path, tenant);
    }

    method LowerCount(tenant: Tenant, count: nat, ghost M: Nodes)
      requires Linked() && M == Abs() && tenant in charCount && count <= charCount[tenant]
      modifies `charCount
      ensures Linked() && M == Abs() && Refunds(old(charCount), charCount, tenant, count)
    {
      if tenant in charCount && 0 < charCount[tenant] {
        charCount := charCount[tenant := charCount[tenant] - count];
      }
    }

    method DisownLeaf(n: Node, tenant: Tenant, ghost M: Nodes)
      requires Linked() && M == Abs() && Owned(M) && In(n) && Leaf(M, n.path, tenant)
      modifies `at, n`owners, at.Values`children
      ensures Linked()
      ensures Abs() == RemoveOwner(M, n.path, tenant)
      ensures at.Keys <= old(at.Keys) && forall p :: p in at ==> at[p] == old(at)[p]
    {
      LastOwnerIsChildless(n, tenant);
      Disown(n, tenant);
    }

    /** tenant gives up its leaf n. */
    method GiveUp(n: Node, tenant: Tenant, ghost M: Nodes)
      requires Valid() && M == Abs() && In(n) && n.path != "" && Leaf(M, n.path, tenant)
      modifies `at, `charCount, n`owners, at.Values`children
      ensures Valid() && n.parent != null && n.parent.path in at
      ensures Abs() == RemoveOwner(M, n.path, tenant)
      ensures at.Keys <= old(at.Keys) && forall p :: p in at ==> at[p] == old(at)[p]
    {
      Refund(n, tenant, M);
      DisownLeaf(n, tenant, M);
    }

    /** The parent of a leaf that was given up becomes a candidate if it is a leaf now. */
    method PushParent(pq: multiset<Entry>, parent: Node, tenant: Tenant) returns (pq': multiset<Entry>)
      requires Linked() && Owned(Abs()) && In(parent)
      requires Accurate(pq) && (parent.path, tenant) !in Named(pq)
      ensures Accurate(pq')
      ensures Named(pq') == Named(pq) + if Leaf(Abs(), parent.path, tenant) then {(parent.path, tenant)} else {}
    {
      pq' := pq;
      var leaves := LeafOf(parent);
      if tenant in leaves {
        pq' := Push(pq, parent, tenant);
      }
    }

    /** Candidates other than the one given up stay accurate. */
    twostate lemma StillAccurate(pq: multiset<Entry>, new p: string, new t: Tenant)
      requires old(Accurate(pq)) && Owned(old(Abs())) && Leaf(old(Abs()), p, t) && p != "" && (p, t) !in Named(pq)
      requires AllLeaves(old(Abs()), Named(pq))
      requires Abs() == RemoveOwner(old(Abs()), p, t) && forall q :: q in at ==> q in old(at) && at[q] == old(at)[q]
      ensures Accurate(pq)
    {
      forall e | e in pq
        ensures pq[e] == 1 && In(e.node) && e.tenant in e.node.owners && e.timestamp == e.node.owners[e.tenant]
      {
        assert (e.node.path, e.tenant) in Named(pq);
        QueueKeepsOthers(old(Abs()), p, t, e.node.path, e.tenant);
      }
    }

    /** The state between two rounds of an eviction. */
    ghost predicate Evicting(pq: multiset<Entry>, max: nat)
      reads this, at.Values
    {
      Valid() && Accurate(pq) && Queued(Abs(), max, Named(pq))
    }

    /** e has been popped, rest is left, and e's tenant is over the limit. */
    ghost predicate Chosen(e: Entry, rest: multiset<Entry>, max: nat)
      reads this, at.Values
    {
      && Valid() && Accurate(rest)
      && In(e.node) && e.node.path != "" && Leaf(Abs(), e.node.path, e.tenant)
      && (e.node.path, e.tenant) !in Named(rest)
      && Queued(Abs(), max, Named(rest) + {(e.node.path, e.tenant)})
    }

    /** e's node has been given up in M, and its parent may be the next candidate. */
    ghost predicate Released(e: Entry, rest: multiset<Entry>, M: Nodes)
      reads this, at.Values, e.node
    {
      && Valid() && Accurate(rest)
      && e.node.parent != null && In(e.node.parent) && IsParent(M.Keys, e.node.parent.path, e.node.path)
      && Abs() == RemoveOwner(M, e.node.path, e.tenant)
    }

    /** A candidate gives up its node; the other candidates stay accurate. */
    method Release(e: Entry, ghost rest: multiset<Entry>, ghost max: nat, ghost M: Nodes)
      requires Chosen(e, rest, max) && M == Abs()
      modifies `at, `charCount, at.Values`owners, at.Values`children
      ensures Released(e, rest, M)
      ensures at.Values <= old(at.Values)
    {
      QueuedAreLeaves(M, max, Named(rest), e.node.path, e.tenant);
      assert UpLink(e.node.path);
      GiveUp(e.node, e.tenant, M);
      StillAccurate(rest, e.node.path, e.tenant);
    }

    /** After e's node was given up, its parent takes its place in the queue if it is a leaf now. */
    method Requeue(e: Entry, rest: multiset<Entry>, ghost M: Nodes, ghost max: nat, ghost M': Nodes)
      returns (pq: multiset<Entry>)
      requires Released(e, rest, M) && M' == Abs()
      requires Owned(M) && Leaf(M, e.node.path, e.tenant) && (e.node.path, e.tenant) !in Named(rest)
      requires Queued(M, max, Named(rest) + {(e.node.path, e.tenant)})
      ensures Valid() && Abs() == M' && Accurate(pq) && Queued(M', max, Named(pq))
    {
      QueueAdvances(M, M', max, Named(rest), e.node.parent.path, e.node.path, e.tenant);
      pq := PushParent(rest, e.node.parent, e.tenant);
      assert Valid() == old(Valid()) && Abs() == old(Abs());
    }

    /** A candidate of a tenant over the limit gives up its node. */
    method EvictOne(e: Entry, rest: multiset<Entry>, max: nat, ghost M: Nodes) returns (pq: multiset<Entry>)
      requires Chosen(e, rest, max) && M == Abs()
      modifies `at, `charCount, at.Values`owners, at.Values`children
      ensures Evicting(pq, max)
      ensures Abs() == RemoveOwner(M, e.node.path, e.tenant)
      ensures at.Values <= old(at.Values)
    {
      Release(e, rest, max, M);
      pq := Requeue(e, rest, M, max, Abs());
    }

    method PopCandidate(pq: multiset<Entry>, max: nat, ghost M: Nodes) returns (e: Entry, rest: multiset<Entry>)
      requires pq != multiset{} && Evicting(pq, max) && M == Abs()
      ensures Evicting(pq, max) && Abs() == M
      ensures e in pq && rest == pq - multiset{e} && forall f :: f in pq ==> e.timestamp <= f.timestamp
    {
      e, rest := PopOldest(pq);
    }

    /** The oldest candidate; it is dropped when its tenant is within the limit. */
    method NextCandidate(pq: multiset<Entry>, max: nat, ghost M: Nodes) returns (e: Entry, rest: multiset<Entry>)
      requires pq != multiset{} && Evicting(pq, max) && M == Abs()
      ensures |rest| < |pq| && Abs() == M
      ensures e.tenant in charCount
      ensures charCount[e.tenant] <= max ==> Evicting(rest, max)
      ensures charCount[e.tenant] > max ==> Chosen(e, rest, max) && Evictable(M, max, e.node.path, e.tenant)
    {
      e, rest := PopCandidate(pq, max, M);
      PoppedIsLeaf(pq, e, max);
      if charCount[e.tenant] <= max {
        Skipped(pq, e, max);
      } else {
        OldestIsChosen(pq, e, max);
      }
    }

    lemma Skipped(pq: multiset<Entry>, e: Entry, max: nat)
      requires Evicting(pq, max) && e in pq && !OverLimit(Abs(), max, e.tenant)
      ensures Evicting(pq - multiset{e}, max)
    {
      PoppedIsLeaf(pq, e, max);
      QueueSkips(Abs(), max, Named(pq), e.node.path, e.tenant);
    }

    lemma OldestIsChosen(pq: multiset<Entry>, e: Entry, max: nat)
      requires Evicting(pq, max) && e in pq && OverLimit(Abs(), max, e.tenant)
      requires forall f :: f in pq ==> e.timestamp <= f.timestamp
      ensures Chosen(e, pq - multiset{e}, max) && Evictable(Abs(), max, e.node.path, e.tenant)
    {
      PoppedIsLeaf(pq, e, max);
      OldestIsEvictable(pq, e, max);
    }

    /** EvictOne, with the pass so far recorded in trace. */
    method EvictNext(e: Entry, rest: multiset<Entry>, max: nat, ghost M0: Nodes, ghost trace: Trace, ghost M: Nodes)
      returns (pq: multiset<Entry>, ghost trace': Trace)
      requires Chosen(e, rest, max) && M == Abs() && Evictable(M, max, e.node.path, e.tenant)
      requires EvictedBy(M0, max, trace, M)
      modifies `at, `charCount, at.Values`owners, at.Values`children
      ensures Evicting(pq, max) && at.Values <= old(at.Values)
      ensures EvictedBy(M0, max, trace', Abs())
      ensures Ownership(Abs()) < Ownership(M)
    {
      pq := EvictOne(e, rest, max, M);
      EvictedByOneMore(M0, max, trace, M, e.node.path, e.tenant, Abs());
      trace' := trace + [(e.node.path, e.tenant)];
    }

    /** The oldest candidate is dropped if its tenant is within max, and gives up its node otherwise. */
    method EvictRound(pq: multiset<Entry>, max: nat, ghost M0: Nodes, ghost trace: Trace, ghost M: Nodes)
      returns (pq': multiset<Entry>, ghost trace': Trace)
      requires pq != multiset{} && Evicting(pq, max) && M == Abs() && EvictedBy(M0, max, trace, M)
      modifies `at, `charCount, at.Values`owners, at.Values`children
      ensures Evicting(pq', max) && at.Values <= old(at.Values)
      ensures EvictedBy(M0, max, trace', Abs())
      ensures Ownership(Abs()) < Ownership(M) || (Abs() == M && |pq'| < |pq|)
    {
      var e, rest := NextCandidate(pq, max, M);
      if e.tenant in charCount && charCount[e.tenant] <= max {
        pq', trace' := rest, trace;
      } else {
        pq', trace' := EvictNext(e, rest, max, M0, trace, M);
      }
    }

    /** evict_tenant_by_size: leaves go, oldest first, until every tenant is within max. */
    method EvictTenantBySize(max: nat) returns (ghost trace: Trace)
      requires Valid()
      modifies `at, `charCount, at.Values`owners, at.Values`children
      ensures Valid() && at.Values <= old(at.Values)
      ensures EvictedBy(old(Abs()), max, trace, Abs())
      ensures RadixRuns.Step(old(Abs()), RadixRuns.Evict(max), Abs())
      ensures forall t :: t in charCount ==> charCount[t] <= max
    {
      ghost var M := Abs();
      var pq := FirstCandidates(max);
      trace := [];
      while pq != multiset{}
        invariant Evicting(pq, max) && at.Values <= old(at.Values)
        invariant EvictedBy(M, max, trace, Abs())
        decreases Ownership(Abs()), |pq|
      {
        pq, trace := EvictRound(pq, max, M, trace, Abs());
      }
      NothingQueued(max);
    }

    method FirstCandidates(max: nat) returns (pq: multiset<Entry>)
      requires Valid()
      ensures Evicting(pq, max)
    {
      pq := CollectLeaves();
    }

    lemma NothingQueued(max: nat)
      requires Evicting(multiset{}, max)
      ensures forall t :: !OverLimit(Abs(), max, t)
      ensures forall t :: t in charCount ==> charCount[t] <= max
    {
      assert Named(multiset{}) == {};
      forall t ensures !OverLimit(Abs(), max, t) {
        QueueEmpty(Abs(), max, t);
      }
      forall t | t in charCount ensures charCount[t] <= max {
        assert !OverLimit(Abs(), max, t) && charCount[t] + 1 == |Held(Abs(), t)|;
      }
    }

    lemma PoppedIsLeaf(pq: multiset<Entry>, e: Entry, max: nat)
      requires Evicting(pq, max) && e in pq
      ensures In(e.node) && Leaf(Abs(), e.node.path, e.tenant)
      ensures Accurate(pq - multiset{e}) && Named(pq - multiset{e}) == Named(pq) - {(e.node.path, e.tenant)}
      ensures Named(pq - multiset{e}) + {(e.node.path, e.tenant)} == Named(pq)
      ensures e.tenant in charCount && (charCount[e.tenant] <= max <==> !OverLimit(Abs(), max, e.tenant))
    {
      Popped(pq, e);
      assert (e.node.path, e.tenant) in Named(pq);
      CountDecides(e.node.path, e.tenant, max);
    }

    /** The maintained count decides whether a tenant is over the limit. */
    lemma CountDecides(p: string, t: Tenant, max: nat)
      requires Valid() && Leaf(Abs(), p, t)
      ensures t in charCount && (charCount[t] <= max <==> !OverLimit(Abs(), max, t))
    {
      assert "" in Abs() && t in Abs()[""];
      assert |Held(Abs(), t)| == charCount[t] + 1;
    }

    lemma OldestIsEvictable(pq: multiset<Entry>, e: Entry, max: nat)
      requires Linked() && Accurate(pq) && e in pq && Leaf(Abs(), e.node.path, e.tenant)
      requires Queued(Abs(), max, Named(pq))
      requires forall f :: f in pq ==> e.timestamp <= f.timestamp
      requires OverLimit(Abs(), max, e.tenant)
      ensures Evictable(Abs(), max, e.node.path, e.tenant) && e.node.path != ""
    {
      RootNotEvictable(Abs(), max, e.node.path, e.tenant);
      assert (e.node.path, e.tenant) in Named(pq);
      forall q, u | Leaf(Abs(), q, u) && OverLimit(Abs(), max, u) ensures e.timestamp <= Abs()[q][u] {
        assert (q, u) in Named(pq);
        var f :| f in pq && (f.node.path, f.tenant) == (q, u);
      }
    }

    // ----- removal of a tenant -----

    static ghost function QueueNames(queue: seq<Node>): set<string>
    {
      set n | n in queue :: n.path
    }

    /** The queue of a removal: nodes of the tree, each once. */
    ghost predicate Lined(queue: seq<Node>)
      reads `at
    {
      (forall n :: n in queue ==> In(n)) && forall i, j :: 0 <= i < j < |queue| ==> queue[i] != queue[j]
    }

    /** The state between two rounds of a removal of t. */
    ghost predicate Emptying(queue: seq<Node>, t: Tenant)
      reads `at, at.Values`owners, at.Values`text, at.Values`parent, at.Values`children
    {
      Linked() && Owned(Abs()) && Lined(queue) && Ready(Abs(), t, QueueNames(queue))
    }

    /** A node that is a leaf of tenant is queued. */
    method QueueIfLeaf(queue: seq<Node>, n: Node, tenant: Tenant) returns (queue': seq<Node>)
      requires Linked() && Owned(Abs()) && In(n) && Lined(queue) && n.path !in QueueNames(queue)
      ensures Lined(queue')
      ensures QueueNames(queue') == QueueNames(queue) + if Leaf(Abs(), n.path, tenant) then {n.path} else {}
    {
      queue' := queue;
      var leaves := LeafOf(n);
      if tenant in leaves {
        ghost var name := n.path;
        assert n in queue ==> name in QueueNames(queue);
        queue' := queue + [n];
      }
    }

    /** The queue once the first i nodes of order have been looked at. */
    ghost predicate QueuedUpto(order: seq<Node>, i: nat, queue: seq<Node>, tenant: Tenant)
      requires i <= |order|
      reads `at, at.Values`owners
    {
      Lined(queue) && forall p :: p in QueueNames(queue) <==> p in Paths(order)[..i] && Leaf(Abs(), p, tenant)
    }

    method QueueNext(order: seq<Node>, i: nat, queue: seq<Node>, tenant: Tenant) returns (queue': seq<Node>)
      requires Linked() && Owned(Abs()) && i < |order| && In(order[i]) && NoRepeats(Paths(order))
      requires QueuedUpto(order, i, queue, tenant)
      ensures QueuedUpto(order, i + 1, queue', tenant)
    {
      assert Paths(order)[..i + 1] == Paths(order)[..i] + [order[i].path];
      assert order[i].path !in Paths(order)[..i];
      queue' := QueueIfLeaf(queue, order[i], tenant);
    }

    method QueueLeaves(tenant: Tenant) returns (queue: seq<Node>)
      requires Linked() && Owned(Abs())
      ensures Lined(queue) && Ready(Abs(), tenant, QueueNames(queue))
    {
      var order := Traverse();
      queue := [];
      for i := 0 to |order|
        invariant QueuedUpto(order, i, queue, tenant)
      {
        assert order[i] in order;
        queue := QueueNext(order, i, queue, tenant);
      }
      assert Paths(order)[..|order|] == Paths(order);
      TraversedAll(order);
    }

    lemma Dequeued(queue: seq<Node>)
      requires queue != [] && Lined(queue)
      ensures In(queue[0]) && Lined(queue[1..]) && queue[0].path !in QueueNames(queue[1..])
      ensures QueueNames(queue) == QueueNames(queue[1..]) + {queue[0].path}
    {
      assert queue[0] in queue;
      forall n | n in queue[1..] ensures n != queue[0] && In(n) {
        var i :| 0 <= i < |queue| - 1 && queue[1..][i] == n;
        assert queue[0] != queue[i + 1];
      }
      assert forall n :: n in queue <==> n == queue[0] || n in queue[1..];
    }

    /** Queued nodes other than the one given up stay in the tree. */
    twostate lemma StillLined(queue: seq<Node>, new p: string, new t: Tenant)
      requires old(Lined(queue)) && old(Linked()) && Owned(old(Abs())) && Leaf(old(Abs()), p, t)
      requires p !in QueueNames(queue)
      requires forall q :: q in QueueNames(queue) ==> Leaf(old(Abs()), q, t)
      requires Abs() == RemoveOwner(old(Abs()), p, t) && forall q :: q in at ==> q in old(at) && at[q] == old(at)[q]
      ensures Lined(queue)
    {
      RemoveOwnerAt(old(Abs()), p, t);
      forall n | n in queue ensures In(n) {
        assert n.path in QueueNames(queue);
        assert n.path in Abs();
      }
    }

    /** A leaf gives up tenant; the other queued nodes stay. */
    method RemoveNode(curr: Node, ghost rest: seq<Node>, tenant: Tenant)
      requires Linked() && Owned(Abs()) && In(curr) && Lined(rest)
      requires Leaf(Abs(), curr.path, tenant) && curr.path !in QueueNames(rest)
      requires forall q :: q in QueueNames(rest) ==> Leaf(Abs(), q, tenant)
      modifies `at, curr`owners, at.Values`children
      ensures Linked() && Owned(Abs()) && Lined(rest)
      ensures Abs() == RemoveOwner(old(Abs()), curr.path, tenant)
      ensures at.Values <= old(at.Values)
      ensures curr.parent == null ==> curr.path == ""
      ensures curr.parent != null ==> In(curr.parent) && IsParent(old(at.Keys), curr.parent.path, curr.path)
    {
      ParentLink(curr);
      RemoveOwnerOwned(Abs(), curr.path, tenant);
      RemoveOwnerAt(Abs(), curr.path, tenant);
      DisownLeaf(curr, tenant, Abs());
      StillLined(rest, curr.path, tenant);
      if curr.parent != null { assert curr.parent.path in Abs(); }
    }

    /** The parent of a node that gave up tenant is queued if it is a leaf now. */
    method RequeueParent(curr: Node, rest: seq<Node>, tenant: Tenant, ghost M: Nodes) returns (queue: seq<Node>)
      requires Linked() && Owned(Abs()) && Owned(M) && Lined(rest)
      requires curr.path !in QueueNames(rest) && Ready(M, tenant, QueueNames(rest) + {curr.path})
      requires Abs() == RemoveOwner(M, curr.path, tenant)
      requires curr.parent == null ==> curr.path == ""
      requires curr.parent != null ==> In(curr.parent) && IsParent(M.Keys, curr.parent.path, curr.path)
      ensures Lined(queue) && Ready(Abs(), tenant, QueueNames(queue))
    {
      if curr.parent != null {
        ReadyAdvances(M, Abs(), tenant, QueueNames(rest), curr.parent.path, curr.path);
        queue := QueueIfLeaf(rest, curr.parent, tenant);
      } else {
        ReadyAtRoot(M, Abs(), tenant, QueueNames(rest));
        queue := rest;
      }
    }

    lemma HeadIsLeaf(M: Nodes, t: Tenant, Q: set<string>, p: string)
      requires Ready(M, t, Q + {p})
      ensures Leaf(M, p, t) && forall q :: q in Q ==> Leaf(M, q, t)
    {
      assert p in Q + {p};
      assert forall q :: q in Q ==> q in Q + {p};
    }

    lemma ParentLink(n: Node)
      requires Linked() && In(n)
      ensures n.parent == null ==> n.path == ""
      ensures n.parent != null ==> In(n.parent) && IsParent(at.Keys, n.parent.path, n.path)
    {
      OnlyRootIsOrphan(n);
      if n.path != "" { assert UpLink(n.path); }
    }

    /** The node at the head of the queue gives up tenant. */
    method RemoveHead(curr: Node, rest: seq<Node>, tenant: Tenant) returns (queue: seq<Node>)
      requires Linked() && Owned(Abs()) && In(curr) && Lined(rest)
      requires curr.path !in QueueNames(rest) && Ready(Abs(), tenant, QueueNames(rest) + {curr.path})
      modifies `at, curr`owners, at.Values`children
      ensures Emptying(queue, tenant)
      ensures Leaf(old(Abs()), curr.path, tenant) && Abs() == RemoveOwner(old(Abs()), curr.path, tenant)
      ensures at.Values <= old(at.Values)
    {
      HeadIsLeaf(Abs(), tenant, QueueNames(rest), curr.path);
      RemoveNode(curr, rest, tenant);
      queue := RequeueParent(curr, rest, tenant, old(Abs()));
    }

    method RemoveRound(queue: seq<Node>, tenant: Tenant, ghost M0: Nodes) returns (queue': seq<Node>)
      requires queue != [] && Emptying(queue, tenant) && Removing(M0, Abs(), tenant)
      modifies `at, at.Values`owners, at.Values`children
      ensures Emptying(queue', tenant) && Removing(M0, Abs(), tenant)
      ensures Ownership(Abs()) < Ownership(old(Abs())) && at.Values <= old(at.Values)
    {
      Dequeued(queue);
      queue' := RemoveHead(queue[0], queue[1..], tenant);
      RemovedOneMore(M0, old(Abs()), Abs(), tenant, queue[0].path);
    }

    /** remove_tenant: tenant disappears from every node, leaves first, and from the counts. */
    method RemoveTenant(tenant: Tenant)
      requires Valid()
      modifies `at, `charCount, at.Values`owners, at.Values`children
      ensures Valid() && at.Values <= old(at.Values)
      ensures RadixRuns.Step(old(Abs()), RadixRuns.Remove(tenant), Abs())
      ensures charCount == old(charCount) - {tenant}
    {
      ghost var M := Abs();
      RemovedSound(M, charCount, tenant);
      RemoveEverywhere(tenant, M);
      DropCount(tenant, Removed(M, tenant));
    }

    /** Phase 3 of remove_tenant. */
    method DropCount(tenant: Tenant, ghost M: Nodes)
      requires Linked() && M == Abs() && Sound(M, charCount - {tenant})
      modifies `charCount
      ensures Valid() && M == Abs() && charCount == old(charCount) - {tenant}
    {
      charCount := charCount - {tenant};
    }

    /** Phases 1 and 2 of remove_tenant. */
    method RemoveEverywhere(tenant: Tenant, ghost M: Nodes)
      requires Linked() && M == Abs() && Owned(M)
      modifies `at, at.Values`owners, at.Values`children
      ensures Linked() && at.Values <= old(at.Values)
      ensures Abs() == Removed(M, tenant)
    {
      var queue := QueueLeaves(tenant);
      while queue != []
        invariant Emptying(queue, tenant) && at.Values <= old(at.Values)
        invariant Removing(M, Abs(), tenant)
        decreases Ownership(Abs())
      {
        queue := RemoveRound(queue, tenant, M);
      }
      assert QueueNames(queue) == {};
      NothingReady(M, Abs(), tenant);
    }

    // ----- sizes -----

    /** n's characters are added to the size of each of its owners. */
    method AddSizes(used: map<Tenant, nat>, n: Node) returns (used': map<Tenant, nat>)
      ensures Added(used, used', n.owners, |n.text|)
    {
      used' := used;
      var todo := n.owners.Keys;
      while todo != {}
        invariant todo <= n.owners.Keys && used'.Keys == used.Keys + (n.owners.Keys - todo)
        invariant forall t :: t in used' ==>
          used'[t] == (if t in used then used[t] else 0) + (if t in n.owners && t !in todo then |n.text| else 0)
        decreases todo
      {
        var t :| t in todo;
        todo := todo - {t};
        used' := used'[t := (if t in used' then used'[t] else 0) + |n.text|];
      }
    }

    method AddNode(used: map<Tenant, nat>, n: Node, ghost M: Nodes, ghost done: set<string>)
      returns (used': map<Tenant, nat>)
      requires Linked() && M == Abs() && Owned(M) && In(n) && n.path !in done && SizesOn(M, used, done)
      ensures SizesOn(M, used', done + {n.path})
    {
      ghost var r := TextLength(n);
      used' := AddSizes(used, n);
      SizesGrow(M, used, used', done, r, n.path, |n.text|);
    }

    lemma TextLength(n: Node) returns (r: string)
      requires Linked() && In(n)
      ensures Spells(at.Keys, r, n.path, |n.text|)
    {
      r := "";
      if n.path != "" {
        assert UpLink(n.path);
        r := n.parent.path;
      }
    }

    /** get_used_size_per_tenant: the sizes recomputed from the nodes are the maintained counts. */
    method GetUsedSizePerTenant() returns (used: map<Tenant, nat>)
      requires Valid()
      ensures used == charCount
    {
      used := SumOverNodes(Abs());
      SizesAreCounts(Abs(), charCount, used);
    }

    method SumOverNodes(ghost M: Nodes) returns (used: map<Tenant, nat>)
      requires Linked() && M == Abs() && Owned(M)
      ensures SizesOn(M, used, M.Keys)
    {
      var order := Traverse();
      assert Linked() == old(Linked()) && Abs() == old(Abs());
      AllPaths(order, M.Keys);
      NothingSized(M, Paths(order));
      used := SumOver(order, M);
    }

    /** The sizes of the first i nodes of order, which lists nodes of the tree M, have been added up. */
    ghost predicate SummedUpto(order: seq<Node>, i: nat, used: map<Tenant, nat>, M: Nodes)
      reads `at, at.Values`owners, at.Values`text, at.Values`parent, at.Values`children
    {
      && Linked() && M == Abs() && Owned(M) && (forall n :: n in order ==> In(n)) && NoRepeats(Paths(order))
      && i <= |order| && SizesOn(M, used, FirstOf(Paths(order), i))
    }

    method SumOver(order: seq<Node>, ghost M: Nodes) returns (used: map<Tenant, nat>)
      requires SummedUpto(order, 0, map[], M)
      ensures SummedUpto(order, |order|, used, M)
    {
      used := map[];
      for i := 0 to |order|
        invariant SummedUpto(order, i, used, M)
      {
        used := AddNext(used, order, i, M);
      }
    }

    method AddNext(used: map<Tenant, nat>, order: seq<Node>, i: nat, ghost M: Nodes) returns (used': map<Tenant, nat>)
      requires i < |order| && SummedUpto(order, i, used, M)
      ensures SummedUpto(order, i + 1, used', M)
    {
      assert order[i] in order;
      NextOf(Paths(order), i);
      used' := AddNode(used, order[i], M, FirstOf(Paths(order), i));
    }

    lemma AllPaths(order: seq<Node>, K: set<string>)
      requires Linked() && K == at.Keys && (forall n :: n in order ==> In(n)) && forall p :: p in at ==> at[p] in order
      ensures FirstOf(Paths(order), |order|) == K
    {
      TraversedAll(order);
      forall i | 0 <= i < |order| ensures Paths(order)[i] in at {
        assert order[i] in order;
      }
    }

    /** get_smallest_tenant: a tenant with the smallest count, or a placeholder when every count is out of range. */
    method GetSmallestTenant() returns (tenant: Tenant)
      ensures Smallest(charCount, tenant)
    {
      tenant := "empty";
      var minCount := USIZE_MAX;
      var todo := charCount.Keys;
      while todo != {}
        invariant todo <= charCount.Keys && minCount <= USIZE_MAX
        invariant forall t :: t in charCount && t !in todo ==> minCount <= charCount[t]
        invariant if minCount == USIZE_MAX then tenant == "empty"
          else tenant in charCount && charCount[tenant] == minCount
        decreases todo
      {
        var t :| t in todo;
        todo := todo - {t};
        if charCount[t] < minCount {
          minCount := charCount[t];
          tenant := t;
        }
      }
    }

    /** The child of p on the way down to q. */
    lemma ChildToward(p: string, q: string)
      requires Linked() && p in at && q in at && p < q
      ensures q[|p|] in at[p].children && at[p].children[q[|p|]].path <= q
      decreases |q|
    {
      assert UpLink(q);
      var r := at[q].parent.path;
      assert p <= r;
      if p < r {
        ChildToward(p, r);
      } else {
        assert p == r;
      }
    }
  }
}
