/**
 * The block tree of BlreCompositeLeafNode / BlreCompositeNode
 * (RescueEditor/js/persistance/composite.js).
 *
 * Every node object ever constructed lives in one arena, keyed by a Handle
 * that stands for the object's identity; a node's parent is a Handle and its
 * children a sequence of Handles. The process-wide counter `_nGId` is the
 * arena's `nextId`. A ghost rank, strictly growing from parent to child,
 * keeps the parent chains finite and measures traversals.
 */
module Composite {
  import opened Wrappers
  import opened Selectors

  /** The identity of a node object. */
  type Handle = nat

  /** The fields of a node object; `payload` holds what a subclass adds. */
  datatype Node<P> = Node(globalId: int, depth: int, parent: Option<Handle>, children: seq<Handle>, payload: P)

  /** The arena together with the ghost ranks that prove it acyclic. */
  datatype Store<P> = Store(nodes: map<Handle, Node<P>>, rank: map<Handle, nat>, bound: nat)

  /** Number.MAX_SAFE_INTEGER, the traversal depth when none is given. */
  const MaxSafeInteger: int := 9007199254740991

  // ---------------------------------------------------------------------
  // Well-formedness
  // ---------------------------------------------------------------------

  ghost predicate AllIn<P>(s: Store<P>, q: seq<Handle>)
  {
    forall k :: 0 <= k < |q| ==> q[k] in s.nodes
  }

  ghost predicate ParentBelow<P>(s: Store<P>, h: Handle)
    requires h in s.nodes && h in s.rank
  {
    var p := s.nodes[h].parent;
    p.Some? ==> p.value in s.nodes && p.value in s.rank && s.rank[p.value] < s.rank[h]
  }

  ghost predicate ChildrenListed<P>(s: Store<P>, h: Handle)
    requires h in s.nodes
  {
    var ch := s.nodes[h].children;
    && (forall k :: 0 <= k < |ch| ==> ch[k] in s.nodes && s.nodes[ch[k]].parent == Some(h))
    && Distinct(ch)
  }

  predicate Distinct<T(==)>(xs: seq<T>)
  {
    forall k, l :: 0 <= k < l < |xs| ==> xs[k] != xs[l]
  }

  /**
   * Ranks grow from parent to child and stay below `bound`; every listed
   * child points back at the node listing it; no child list repeats a node.
   */
  ghost predicate Ranked<P>(s: Store<P>)
  {
    && s.nodes.Keys == s.rank.Keys
    && (forall h :: h in s.nodes ==> s.rank[h] < s.bound)
    && (forall h :: h in s.nodes ==> ParentBelow(s, h))
    && (forall h :: h in s.nodes ==> ChildrenListed(s, h))
  }

  lemma ChildRank<P>(s: Store<P>, h: Handle, k: nat)
    requires Ranked(s) && h in s.nodes && k < |s.nodes[h].children|
    ensures s.nodes[h].children[k] in s.nodes
    ensures s.rank[h] < s.rank[s.nodes[h].children[k]]
  {
    assert ChildrenListed(s, h);
    assert ParentBelow(s, s.nodes[h].children[k]);
  }

  // ---------------------------------------------------------------------
  // Ancestors
  // ---------------------------------------------------------------------

  /** The chain of parents starting at `p`, nearest first. */
  ghost function Up<P>(s: Store<P>, p: Option<Handle>): (r: seq<Handle>)
    requires Ranked(s) && (p.Some? ==> p.value in s.nodes)
    decreases if p.Some? then s.rank[p.value] + 1 else 0
    ensures AllIn(s, r)
  {
    if p.None? then []
    else
      assert ParentBelow(s, p.value);
      [p.value] + Up(s, s.nodes[p.value].parent)
  }

  /** The ancestors of `h`, nearest first (what _makeAncestorsArray collects). */
  ghost function Ancestry<P>(s: Store<P>, h: Handle): (r: seq<Handle>)
    requires Ranked(s) && h in s.nodes
    ensures AllIn(s, r)
  {
    Up(s, s.nodes[h].parent)
  }

  function Ids<P>(nodes: map<Handle, Node<P>>, hs: seq<Handle>): (r: seq<int>)
    requires forall k :: 0 <= k < |hs| ==> hs[k] in nodes
    ensures |r| == |hs| && forall k :: 0 <= k < |hs| ==> r[k] == nodes[hs[k]].globalId
  {
    if hs == [] then [] else [nodes[hs[0]].globalId] + Ids(nodes, hs[1..])
  }

  /** The ids `is` matches a selector against: the node's own, then its ancestors'. */
  ghost function IdChain<P>(s: Store<P>, h: Handle): seq<int>
    requires Ranked(s) && h in s.nodes
  {
    Ids(s.nodes, [h] + Ancestry(s, h))
  }

  ghost predicate NodeMatches<P>(s: Store<P>, h: Handle, sel: Selector)
    requires Ranked(s) && h in s.nodes
  {
    Matches(IdChain(s, h), sel)
  }

  /** The nodes of `hs` that match `sel`, in order. */
  ghost function Matching<P>(s: Store<P>, hs: seq<Handle>, sel: Selector): (r: seq<Handle>)
    requires Ranked(s) && AllIn(s, hs)
    ensures |r| <= |hs| && AllIn(s, r)
  {
    if hs == [] then []
    else
      var last := hs[|hs| - 1];
      Matching(s, hs[..|hs| - 1], sel) + (if NodeMatches(s, last, sel) then [last] else [])
  }

  /** With the default selector `[{}]` every ancestor is kept: ancestors() is the whole chain. */
  lemma {:induction false} MatchingAny<P>(s: Store<P>, hs: seq<Handle>)
    requires Ranked(s) && AllIn(s, hs)
    decreases |hs|
    ensures Matching(s, hs, [AnyNode]) == hs
  {
    if hs != [] {
      var init, last := hs[..|hs| - 1], hs[|hs| - 1];
      AnySelectorMatches(IdChain(s, last));
      MatchingAny(s, init);
      assert init + [last] == hs;
    }
  }

  /** A node is kept exactly when it is in `hs` and matches. */
  lemma {:induction false} MatchingExact<P>(s: Store<P>, hs: seq<Handle>, sel: Selector, x: Handle)
    requires Ranked(s) && AllIn(s, hs)
    decreases |hs|
    ensures x in Matching(s, hs, sel) <==> x in hs && x in s.nodes && NodeMatches(s, x, sel)
  {
    if hs != [] {
      var init := hs[..|hs| - 1];
      MatchingExact(s, init, sel, x);
      assert hs == init + [hs[|hs| - 1]];
    }
  }

  /** Matching takes the last node off, as its definition does. */
  lemma MatchingLast<P>(s: Store<P>, hs: seq<Handle>, sel: Selector)
    requires Ranked(s) && AllIn(s, hs) && hs != []
    ensures AllIn(s, hs[..|hs| - 1])
    ensures Matching(s, hs, sel) == Matching(s, hs[..|hs| - 1], sel) + Tail(s, hs[|hs| - 1], sel)
  {
  }

  /** The single node `x` when it matches, else nothing. */
  ghost function Tail<P>(s: Store<P>, x: Handle, sel: Selector): seq<Handle>
    requires Ranked(s) && x in s.nodes
  {
    if NodeMatches(s, x, sel) then [x] else []
  }

  lemma SeqAssoc<T>(a: seq<T>, b: seq<T>, c: seq<T>)
    ensures (a + b) + c == a + (b + c)
  {
  }

  /** Matching keeps order: it distributes over concatenation. */
  lemma {:induction false} MatchingAppend<P>(s: Store<P>, a: seq<Handle>, b: seq<Handle>, sel: Selector)
    requires Ranked(s) && AllIn(s, a) && AllIn(s, b)
    decreases |b|
    ensures AllIn(s, a + b)
    ensures Matching(s, a + b, sel) == Matching(s, a, sel) + Matching(s, b, sel)
  {
    if b == [] {
      assert a + b == a;
    } else {
      var ab := a + b;
      var b' := b[..|b| - 1];
      var x := b[|b| - 1];
      assert ab[..|ab| - 1] == a + b';
      assert ab[|ab| - 1] == x;
      MatchingLast(s, ab, sel);
      MatchingLast(s, b, sel);
      MatchingAppend(s, a, b', sel);
      SeqAssoc(Matching(s, a, sel), Matching(s, b', sel), Tail(s, x, sel));
    }
  }

  function Head<T>(xs: seq<T>): (r: Option<T>)
    ensures r.None? <==> xs == []
    ensures r.Some? ==> r.value == xs[0]
  {
    if xs == [] then None else Some(xs[0])
  }

  /** Over nodes none of which matches, nothing is kept. */
  lemma {:induction false} MatchingNone<P>(s: Store<P>, hs: seq<Handle>, sel: Selector)
    requires Ranked(s) && AllIn(s, hs)
    requires forall k :: 0 <= k < |hs| ==> !NodeMatches(s, hs[k], sel)
    decreases |hs|
    ensures Matching(s, hs, sel) == []
  {
    if hs != [] {
      MatchingNone(s, hs[..|hs| - 1], sel);
    }
  }

  /** Kept nodes that come first: a prefix of non-matching nodes and then a match. */
  lemma MatchingAfterMisses<P>(s: Store<P>, a: seq<Handle>, x: Handle, b: seq<Handle>, sel: Selector)
    requires Ranked(s) && AllIn(s, a) && x in s.nodes && AllIn(s, b)
    requires forall k :: 0 <= k < |a| ==> !NodeMatches(s, a[k], sel)
    requires NodeMatches(s, x, sel)
    ensures AllIn(s, a + [x] + b)
    ensures Head(Matching(s, a + [x] + b, sel)) == Some(x)
  {
    MatchingNone(s, a, sel);
    MatchingAppend(s, a, [x], sel);
    assert Matching(s, [x], sel) == [x] by {
      assert [x][..0] == [];
    }
    MatchingAppend(s, a + [x], b, sel);
  }

  // ---------------------------------------------------------------------
  // Sizes of forests, for termination
  // ---------------------------------------------------------------------

  ghost function MinRank<P>(s: Store<P>, q: seq<Handle>): (m: nat)
    requires q != [] && forall k :: 0 <= k < |q| ==> q[k] in s.rank
    ensures forall k :: 0 <= k < |q| ==> m <= s.rank[q[k]]
    ensures exists k :: 0 <= k < |q| && m == s.rank[q[k]]
  {
    if |q| == 1 then s.rank[q[0]]
    else
      var m := MinRank(s, q[1..]);
      assert forall k :: 1 <= k < |q| ==> q[k] == q[1..][k - 1];
      if s.rank[q[0]] <= m then s.rank[q[0]] else m
  }

  /** How far the lowest rank in `q` is from `bound` (0 for the empty forest). */
  ghost function Gap<P>(s: Store<P>, q: seq<Handle>): int
    requires AllIn(s, q) && s.nodes.Keys == s.rank.Keys
  {
    if q == [] then 0 else s.bound - MinRank(s, q)
  }

  lemma GapFacts<P>(s: Store<P>, q: seq<Handle>)
    requires Ranked(s) && AllIn(s, q) && q != []
    ensures 0 < Gap(s, q)
    ensures Gap(s, q[1..]) <= Gap(s, q)
    ensures Gap(s, s.nodes[q[0]].children) < Gap(s, q)
  {
    var m := MinRank(s, q);
    var k :| 0 <= k < |q| && m == s.rank[q[k]];
    assert s.rank[q[k]] < s.bound;
    if q[1..] != [] {
      var m1 := MinRank(s, q[1..]);
      var k1 :| 0 <= k1 < |q[1..]| && m1 == s.rank[q[1..][k1]];
      assert q[1..][k1] == q[k1 + 1];
    }
    var ch := s.nodes[q[0]].children;
    if ch != [] {
      var mc := MinRank(s, ch);
      var kc :| 0 <= kc < |ch| && mc == s.rank[ch[kc]];
      ChildRank(s, q[0], kc);
    }
  }

  /** The number of node positions in the forest rooted at `q`. */
  ghost function ForestSize<P>(s: Store<P>, q: seq<Handle>): nat
    requires Ranked(s) && AllIn(s, q)
    decreases Gap(s, q), |q|
  {
    if q == [] then 0
    else
      GapFacts(s, q);
      var ch := s.nodes[q[0]].children;
      assert AllIn(s, ch) by {
        forall k | 0 <= k < |ch| ensures ch[k] in s.nodes { ChildRank(s, q[0], k); }
      }
      1 + ForestSize(s, ch) + ForestSize(s, q[1..])
  }

  lemma ChildrenIn<P>(s: Store<P>, h: Handle)
    requires Ranked(s) && h in s.nodes
    ensures AllIn(s, s.nodes[h].children)
  {
    forall k | 0 <= k < |s.nodes[h].children| ensures s.nodes[h].children[k] in s.nodes { ChildRank(s, h, k); }
  }

  lemma {:induction false} ForestSizeAppend<P>(s: Store<P>, a: seq<Handle>, b: seq<Handle>)
    requires Ranked(s) && AllIn(s, a) && AllIn(s, b)
    decreases |a|
    ensures AllIn(s, a + b)
    ensures ForestSize(s, a + b) == ForestSize(s, a) + ForestSize(s, b)
  {
    if a != [] {
      assert (a + b)[0] == a[0];
      assert (a + b)[1..] == a[1..] + b;
      ForestSizeAppend(s, a[1..], b);
    } else {
      assert a + b == b;
    }
  }

  // ---------------------------------------------------------------------
  // Depth-first orders
  // ---------------------------------------------------------------------

  /** Pre-order of the forest `q`: each node before its children. */
  ghost function Pre<P>(s: Store<P>, q: seq<Handle>): (r: seq<Handle>)
    requires Ranked(s) && AllIn(s, q)
    decreases Gap(s, q), |q|
    ensures AllIn(s, r)
  {
    if q == [] then []
    else
      GapFacts(s, q);
      ChildrenIn(s, q[0]);
      [q[0]] + Pre(s, s.nodes[q[0]].children) + Pre(s, q[1..])
  }

  /** Post-order of the forest `q`: each node after its children. */
  ghost function Post<P>(s: Store<P>, q: seq<Handle>): (r: seq<Handle>)
    requires Ranked(s) && AllIn(s, q)
    decreases Gap(s, q), |q|
    ensures AllIn(s, r)
  {
    if q == [] then []
    else
      GapFacts(s, q);
      ChildrenIn(s, q[0]);
      Post(s, s.nodes[q[0]].children) + [q[0]] + Post(s, q[1..])
  }

  lemma {:induction false} PreAppend<P>(s: Store<P>, a: seq<Handle>, b: seq<Handle>)
    requires Ranked(s) && AllIn(s, a) && AllIn(s, b)
    decreases |a|
    ensures AllIn(s, a + b)
    ensures Pre(s, a + b) == Pre(s, a) + Pre(s, b)
  {
    if a != [] {
      assert (a + b)[0] == a[0];
      assert (a + b)[1..] == a[1..] + b;
      PreAppend(s, a[1..], b);
    } else {
      assert a + b == b;
    }
  }

  lemma {:induction false} PostAppend<P>(s: Store<P>, a: seq<Handle>, b: seq<Handle>)
    requires Ranked(s) && AllIn(s, a) && AllIn(s, b)
    decreases |a|
    ensures AllIn(s, a + b)
    ensures Post(s, a + b) == Post(s, a) + Post(s, b)
  {
    if a != [] {
      assert (a + b)[0] == a[0];
      assert (a + b)[1..] == a[1..] + b;
      PostAppend(s, a[1..], b);
    } else {
      assert a + b == b;
    }
  }

  /** Pre-order and post-order list the same nodes, as often. */
  lemma {:induction false} PrePostSameNodes<P>(s: Store<P>, q: seq<Handle>)
    requires Ranked(s) && AllIn(s, q)
    decreases Gap(s, q), |q|
    ensures multiset(Pre(s, q)) == multiset(Post(s, q))
  {
    if q != [] {
      GapFacts(s, q);
      ChildrenIn(s, q[0]);
      PrePostSameNodes(s, s.nodes[q[0]].children);
      PrePostSameNodes(s, q[1..]);
    }
  }

  // ---------------------------------------------------------------------
  // Breadth-first traversal
  // ---------------------------------------------------------------------

  /**
   * The callback a query passes to breathTraveral, with the variables its
   * closure updates: find's `res`, findFirst's `res`, getGreatestGlobalId's `max`.
   */
  datatype Callback = Collect(sel: Selector, found: seq<Handle>) | FirstMatch(sel: Selector, first: Option<Handle>) | MaxId(max: int)

  /** One call of the callback on node `h` (id `id`, `matched` = `h.is(sel)`): the new closure state and whether it returns true. */
  function Apply(cb: Callback, h: Handle, id: int, matched: bool): (Callback, bool)
  {
    match cb
    case Collect(sel, found) => (if matched then Collect(sel, found + [h]) else cb, false)
    case FirstMatch(sel, first) => if matched then (FirstMatch(sel, Some(h)), true) else (cb, false)
    case MaxId(max) => (if id > max then MaxId(id) else cb, false)
  }

  /** Whether the callback tests the selector (the MaxId callback does not call `is`). */
  predicate UsesSelector(cb: Callback)
  {
    cb.Collect? || cb.FirstMatch?
  }

  ghost function Matched<P>(s: Store<P>, cb: Callback, h: Handle): bool
    requires Ranked(s) && h in s.nodes
  {
    UsesSelector(cb) && NodeMatches(s, h, cb.sel)
  }

  /** The closure state after the callback has seen the nodes of `vs` in order. */
  ghost function Run<P>(s: Store<P>, cb: Callback, vs: seq<Handle>): Callback
    requires Ranked(s) && AllIn(s, vs)
  {
    if vs == [] then cb
    else
      var h := vs[|vs| - 1];
      var before := Run(s, cb, vs[..|vs| - 1]);
      Apply(before, h, s.nodes[h].globalId, Matched(s, before, h)).0
  }

  /** Whether the callback stops the traversal on `h`. */
  ghost predicate Stops<P>(s: Store<P>, cb: Callback, h: Handle)
    requires Ranked(s) && h in s.nodes
  {
    cb.FirstMatch? && NodeMatches(s, h, cb.sel)
  }

  /** Whether the children of `n` are enqueued: shallower than the limit and not a `lowest` node. */
  ghost predicate Expands<P>(s: Store<P>, n: Handle, limit: int, lowest: Option<Selector>)
    requires Ranked(s) && n in s.nodes
  {
    s.nodes[n].depth < limit && (lowest.None? || !NodeMatches(s, n, lowest.value))
  }

  ghost function Next<P>(s: Store<P>, q: seq<Handle>, limit: int, lowest: Option<Selector>): (r: seq<Handle>)
    requires Ranked(s) && AllIn(s, q) && q != []
    ensures AllIn(s, r) && ForestSize(s, r) < ForestSize(s, q)
  {
    ChildrenIn(s, q[0]);
    var ch := if Expands(s, q[0], limit, lowest) then s.nodes[q[0]].children else [];
    ForestSizeAppend(s, q[1..], ch);
    q[1..] + ch
  }

  /**
   * The nodes breathTraveral hands to the callback, in order, starting from
   * the queue `q`: the head is visited, its children are enqueued when it
   * expands, and the traversal ends after a node on which the callback stops.
   */
  ghost function Visit<P>(s: Store<P>, q: seq<Handle>, limit: int, lowest: Option<Selector>, cb: Callback): (r: seq<Handle>)
    requires Ranked(s) && AllIn(s, q)
    decreases ForestSize(s, q)
    ensures AllIn(s, r)
  {
    if q == [] then []
    else if Stops(s, cb, q[0]) then [q[0]]
    else [q[0]] + Visit(s, Next(s, q, limit, lowest), limit, lowest, cb)
  }

  /** The full traversal order: what a callback that never stops is handed. */
  ghost function Traverse<P>(s: Store<P>, q: seq<Handle>, limit: int, lowest: Option<Selector>): (r: seq<Handle>)
    requires Ranked(s) && AllIn(s, q)
    ensures AllIn(s, r)
  {
    Visit(s, q, limit, lowest, MaxId(0))
  }

  /** A callback that never stops sees the full traversal order. */
  lemma {:induction false} VisitNonStopping<P>(s: Store<P>, q: seq<Handle>, limit: int, lowest: Option<Selector>, cb: Callback)
    requires Ranked(s) && AllIn(s, q) && !cb.FirstMatch?
    decreases ForestSize(s, q)
    ensures Visit(s, q, limit, lowest, cb) == Traverse(s, q, limit, lowest)
  {
    if q != [] {
      VisitNonStopping(s, Next(s, q, limit, lowest), limit, lowest, cb);
    }
  }

  /** When no node of the queue is shallower than the limit, nothing is enqueued: the queue is the order. */
  lemma {:induction false} TraverseFlat<P>(s: Store<P>, q: seq<Handle>, limit: int, lowest: Option<Selector>)
    requires Ranked(s) && AllIn(s, q)
    requires forall k :: 0 <= k < |q| ==> s.nodes[q[k]].depth >= limit
    decreases |q|
    ensures Traverse(s, q, limit, lowest) == q
  {
    if q != [] {
      assert Next(s, q, limit, lowest) == q[1..];
      TraverseFlat(s, q[1..], limit, lowest);
    }
  }

  /** The queue breathTraveral starts from. */
  function StartQueue<P>(nodes: map<Handle, Node<P>>, root: Handle, excludeRoot: bool): seq<Handle>
    requires root in nodes
  {
    if excludeRoot then nodes[root].children else [root]
  }

  /** The depth at which breathTraveral stops enqueueing: `maxDepth` (default MAX_SAFE_INTEGER) plus the root's depth. */
  function Limit(maxDepth: Option<int>, rootDepth: int): int
  {
    maxDepth.GetOr(MaxSafeInteger) + rootDepth
  }

  /** Every node of `hs` is shallower than `limit`. */
  ghost predicate Shallow<P>(s: Store<P>, hs: seq<Handle>, limit: int)
    requires AllIn(s, hs)
  {
    forall k :: 0 <= k < |hs| ==> s.nodes[hs[k]].depth < limit
  }

  lemma ShallowAppend<P>(s: Store<P>, a: seq<Handle>, b: seq<Handle>, limit: int)
    requires AllIn(s, a) && AllIn(s, b)
    ensures AllIn(s, a + b)
    ensures Shallow(s, a + b, limit) <==> Shallow(s, a, limit) && Shallow(s, b, limit)
  {
    assert forall k :: 0 <= k < |a| ==> (a + b)[k] == a[k];
    assert forall k :: 0 <= k < |b| ==> (a + b)[|a| + k] == b[k];
  }

  /** The first step of pre-order. */
  lemma PreStep<P>(s: Store<P>, q: seq<Handle>)
    requires Ranked(s) && AllIn(s, q) && q != []
    ensures q[0] in s.nodes && AllIn(s, s.nodes[q[0]].children)
    ensures Pre(s, q) == [q[0]] + Pre(s, s.nodes[q[0]].children) + Pre(s, q[1..])
  {
    ChildrenIn(s, q[0]);
  }

  /** The first step of the visit, on a node where the callback does not stop. */
  lemma VisitStep<P>(s: Store<P>, q: seq<Handle>, limit: int, lowest: Option<Selector>, cb: Callback)
    requires Ranked(s) && AllIn(s, q) && q != [] && !Stops(s, cb, q[0])
    ensures Visit(s, q, limit, lowest, cb) == [q[0]] + Visit(s, Next(s, q, limit, lowest), limit, lowest, cb)
  {
  }

  /** When the whole pre-order is shallow, the head expands and the rest of the pre-order stays shallow. */
  lemma ShallowHead<P>(s: Store<P>, q: seq<Handle>, limit: int)
    requires Ranked(s) && AllIn(s, q) && q != [] && Shallow(s, Pre(s, q), limit)
    ensures q[0] in s.nodes && AllIn(s, s.nodes[q[0]].children)
    ensures s.nodes[q[0]].depth < limit
    ensures Next(s, q, limit, None) == q[1..] + s.nodes[q[0]].children
    ensures Shallow(s, Pre(s, Next(s, q, limit, None)), limit)
  {
    var n := q[0];
    PreStep(s, q);
    var ch := s.nodes[n].children;
    var pc := Pre(s, ch);
    var pr := Pre(s, q[1..]);
    ShallowAppend(s, [n], pc, limit);
    ShallowAppend(s, [n] + pc, pr, limit);
    assert ([n] + pc + pr)[0] == n;
    PreAppend(s, q[1..], ch);
    ShallowAppend(s, pr, pc, limit);
  }

  lemma MultisetStep<T>(n: T, v: seq<T>, pc: seq<T>, pr: seq<T>)
    requires multiset(v) == multiset(pr + pc)
    ensures multiset([n] + v) == multiset([n] + pc + pr)
  {
  }

  /** Without a stopping callback and with every node expanding, the traversal lists the same nodes as pre-order. */
  lemma {:induction false} VisitAllIsPre<P>(s: Store<P>, q: seq<Handle>, limit: int, cb: Callback)
    requires Ranked(s) && AllIn(s, q) && !cb.FirstMatch?
    requires Shallow(s, Pre(s, q), limit)
    decreases ForestSize(s, q)
    ensures multiset(Visit(s, q, limit, None, cb)) == multiset(Pre(s, q))
  {
    if q != [] {
      ShallowHead(s, q, limit);
      PreStep(s, q);
      var ch := s.nodes[q[0]].children;
      var next := Next(s, q, limit, None);
      PreAppend(s, q[1..], ch);
      VisitAllIsPre(s, next, limit, cb);
      VisitStep(s, q, limit, None, cb);
      MultisetStep(q[0], Visit(s, next, limit, None, cb), Pre(s, ch), Pre(s, q[1..]));
    }
  }

  /** The position of the first node of `vs` that matches `sel`. */
  ghost function FirstMatchIndex<P>(s: Store<P>, vs: seq<Handle>, sel: Selector): (r: Option<nat>)
    requires Ranked(s) && AllIn(s, vs)
    ensures r.Some? ==> r.value < |vs| && NodeMatches(s, vs[r.value], sel)
    ensures r.Some? ==> forall k :: 0 <= k < r.value ==> !NodeMatches(s, vs[k], sel)
    ensures r.None? ==> forall k :: 0 <= k < |vs| ==> !NodeMatches(s, vs[k], sel)
  {
    if vs == [] then None
    else if NodeMatches(s, vs[0], sel) then Some(0)
    else
      var r := FirstMatchIndex(s, vs[1..], sel);
      if r.None? then None else Some(r.value + 1)
  }

  /** The visit order cut after its first node matching `sel`, unchanged when none does. */
  ghost function UpToFirst<P>(s: Store<P>, vs: seq<Handle>, sel: Selector): (r: seq<Handle>)
    requires Ranked(s) && AllIn(s, vs)
    ensures AllIn(s, r)
  {
    var i := FirstMatchIndex(s, vs, sel);
    if i.None? then vs else vs[..i.value + 1]
  }

  /** The first step of the full traversal. */
  lemma TraverseStep<P>(s: Store<P>, q: seq<Handle>, limit: int, lowest: Option<Selector>)
    requires Ranked(s) && AllIn(s, q) && q != []
    ensures Traverse(s, q, limit, lowest) == [q[0]] + Traverse(s, Next(s, q, limit, lowest), limit, lowest)
  {
  }

  /** Cutting after the first match, one node at a time. */
  lemma UpToFirstCons<P>(s: Store<P>, x: Handle, rest: seq<Handle>, sel: Selector)
    requires Ranked(s) && x in s.nodes && AllIn(s, rest)
    ensures AllIn(s, [x] + rest)
    ensures NodeMatches(s, x, sel) ==> UpToFirst(s, [x] + rest, sel) == [x]
    ensures !NodeMatches(s, x, sel) ==> UpToFirst(s, [x] + rest, sel) == [x] + UpToFirst(s, rest, sel)
  {
    var all := [x] + rest;
    assert all[0] == x && all[1..] == rest;
    if !NodeMatches(s, x, sel) {
      var i := FirstMatchIndex(s, rest, sel);
      if i.Some? {
        assert all[..i.value + 2] == [x] + rest[..i.value + 1];
      }
    }
  }

  /** A stopping traversal is the full traversal cut after the first match. */
  lemma {:induction false} VisitStopsAtFirst<P>(s: Store<P>, q: seq<Handle>, limit: int, lowest: Option<Selector>, sel: Selector, first: Option<Handle>)
    requires Ranked(s) && AllIn(s, q)
    decreases ForestSize(s, q)
    ensures Visit(s, q, limit, lowest, FirstMatch(sel, first)) == UpToFirst(s, Traverse(s, q, limit, lowest), sel)
  {
    if q != [] {
      var next := Next(s, q, limit, lowest);
      TraverseStep(s, q, limit, lowest);
      UpToFirstCons(s, q[0], Traverse(s, next, limit, lowest), sel);
      if !NodeMatches(s, q[0], sel) {
        VisitStopsAtFirst(s, next, limit, lowest, sel, first);
        VisitStep(s, q, limit, lowest, FirstMatch(sel, first));
      }
    }
  }

  lemma {:induction false} RunCollect<P>(s: Store<P>, sel: Selector, vs: seq<Handle>)
    requires Ranked(s) && AllIn(s, vs)
    decreases |vs|
    ensures Run(s, Collect(sel, []), vs) == Collect(sel, Matching(s, vs, sel))
  {
    if vs != [] {
      RunCollect(s, sel, vs[..|vs| - 1]);
    }
  }

  /** The largest id the MaxId callback has seen, starting from `max`. */
  ghost function MaxOf<P>(s: Store<P>, max: int, vs: seq<Handle>): (m: int)
    requires AllIn(s, vs)
    ensures m >= max && forall k :: 0 <= k < |vs| ==> m >= s.nodes[vs[k]].globalId
    ensures m == max || exists k :: 0 <= k < |vs| && m == s.nodes[vs[k]].globalId
  {
    if vs == [] then max
    else
      var m := MaxOf(s, max, vs[..|vs| - 1]);
      var id := s.nodes[vs[|vs| - 1]].globalId;
      assert forall k :: 0 <= k < |vs| - 1 ==> vs[k] == vs[..|vs| - 1][k];
      if id > m then id else m
  }

  lemma {:induction false} RunMaxId<P>(s: Store<P>, max: int, vs: seq<Handle>)
    requires Ranked(s) && AllIn(s, vs)
    decreases |vs|
    ensures Run(s, MaxId(max), vs) == MaxId(MaxOf(s, max, vs))
  {
    if vs != [] {
      RunMaxId(s, max, vs[..|vs| - 1]);
    }
  }

  /** Over nodes none of which matches, the FirstMatch callback keeps its state. */
  lemma {:induction false} RunFirstMatchNone<P>(s: Store<P>, sel: Selector, vs: seq<Handle>)
    requires Ranked(s) && AllIn(s, vs)
    requires forall k :: 0 <= k < |vs| ==> !NodeMatches(s, vs[k], sel)
    decreases |vs|
    ensures Run(s, FirstMatch(sel, None), vs) == FirstMatch(sel, None)
  {
    if vs != [] {
      RunFirstMatchNone(s, sel, vs[..|vs| - 1]);
    }
  }

  /** The FirstMatch callback, run up to the first match, holds that first match. */
  lemma RunFirstMatch<P>(s: Store<P>, sel: Selector, vs: seq<Handle>)
    requires Ranked(s) && AllIn(s, vs)
    ensures var i := FirstMatchIndex(s, vs, sel);
            Run(s, FirstMatch(sel, None), UpToFirst(s, vs, sel)) == FirstMatch(sel, if i.None? then None else Some(vs[i.value]))
  {
    var i := FirstMatchIndex(s, vs, sel);
    if i.None? {
      RunFirstMatchNone(s, sel, vs);
    } else {
      var cut := vs[..i.value + 1];
      assert cut[..|cut| - 1] == vs[..i.value];
      RunFirstMatchNone(s, sel, vs[..i.value]);
    }
  }

  // ---------------------------------------------------------------------
  // Array.prototype.splice on child lists
  // ---------------------------------------------------------------------

  /** The start position splice computes: negative counts from the end, both ends clamped. */
  function SpliceStart(i: int, len: nat): (k: nat)
    ensures k <= len
    ensures 0 <= i <= len ==> k == i
    ensures i < 0 && len + i >= 0 ==> k == len + i
  {
    if i < 0 then (if len + i < 0 then 0 else len + i)
    else if i > len then len
    else i
  }

  /** Where addChild puts the new child: pushed when no index is given, else spliced in. */
  function InsertPos<T>(xs: seq<T>, index: Option<int>): (k: nat)
    ensures k <= |xs|
  {
    if index.None? then |xs| else SpliceStart(index.value, |xs|)
  }

  /** The child list after addChild. */
  function InsertAt<T>(xs: seq<T>, index: Option<int>, x: T): (r: seq<T>)
    ensures |r| == |xs| + 1
    ensures r[InsertPos(xs, index)] == x
    ensures forall j :: 0 <= j < InsertPos(xs, index) ==> r[j] == xs[j]
    ensures forall j :: InsertPos(xs, index) <= j < |xs| ==> r[j + 1] == xs[j]
    ensures multiset(r) == multiset(xs) + multiset{x}
  {
    var k := InsertPos(xs, index);
    assert xs == xs[..k] + xs[k..];
    xs[..k] + [x] + xs[k..]
  }

  lemma InsertAtDistinct<T>(xs: seq<T>, index: Option<int>, x: T)
    requires Distinct(xs) && x !in xs
    ensures Distinct(InsertAt(xs, index, x))
    ensures forall y :: y in InsertAt(xs, index, x) <==> y in xs || y == x
  {
    var r := InsertAt(xs, index, x);
    var p := InsertPos(xs, index);
    assert forall y :: y in r <==> y in multiset(r);
    forall k, l | 0 <= k < l < |r|
      ensures r[k] != r[l]
    {
      if l < p {
      } else if l == p {
        assert r[k] == xs[k];
      } else if k < p {
        assert r[l] == xs[l - 1];
      } else if k == p {
        assert r[l] == xs[l - 1];
      } else {
        assert r[k] == xs[k - 1] && r[l] == xs[l - 1];
      }
    }
  }

  /** The list with position `k` removed (`splice(k, 1)`). */
  function RemoveIndex<T>(xs: seq<T>, k: nat): (r: seq<T>)
    requires k < |xs|
    ensures |r| == |xs| - 1
    ensures forall j :: 0 <= j < k ==> r[j] == xs[j]
    ensures forall j :: k <= j < |r| ==> r[j] == xs[j + 1]
    ensures multiset(r) == multiset(xs) - multiset{xs[k]}
  {
    assert xs == xs[..k] + [xs[k]] + xs[k + 1..];
    xs[..k] + xs[k + 1..]
  }

  lemma RemoveIndexDistinct<T>(xs: seq<T>, k: nat)
    requires k < |xs| && Distinct(xs)
    ensures Distinct(RemoveIndex(xs, k))
    ensures forall y :: y in RemoveIndex(xs, k) ==> y in xs && y != xs[k]
  {
    var r := RemoveIndex(xs, k);
    forall y | y in r
      ensures y in xs && y != xs[k]
    {
      var j :| 0 <= j < |r| && r[j] == y;
      if j < k {
        assert xs[j] == y;
      } else {
        assert xs[j + 1] == y;
      }
    }
  }

  /**
   * removeChildFromIndex with its parameter read under the name it was
   * declared with: `index < length` removes the splice position (nothing
   * at all on an empty list with a negative index) and answers true.
   */
  function RemoveFromIndex<T>(xs: seq<T>, index: int): (r: (seq<T>, bool))
    ensures r.1 <==> index < |xs|
    ensures !r.1 ==> r.0 == xs
    ensures r.1 && SpliceStart(index, |xs|) < |xs| ==> r.0 == RemoveIndex(xs, SpliceStart(index, |xs|))
    ensures r.1 && SpliceStart(index, |xs|) == |xs| ==> xs == [] && r.0 == []
  {
    if index < |xs| then
      var k := SpliceStart(index, |xs|);
      (if k < |xs| then RemoveIndex(xs, k) else xs, true)
    else (xs, false)
  }

  /** What removeChildFromIndex raises: it reads `a_index`, which is not declared. */
  datatype JsError = ReferenceError(name: string) | TypeError(what: string)

  /** removeChildFromIndex as written: every call raises a ReferenceError before touching the list. */
  function RemoveFromIndexAsWritten<T>(xs: seq<T>, index: int): (r: Result<(seq<T>, bool), JsError>)
    ensures r.Err? && r.error == ReferenceError("a_index")
  {
    Err(ReferenceError("a_index"))
  }

  /** Removing index 0 of a one-child list empties it; as written the same call raises instead. */
  lemma RemoveFromIndexFinding(c: Handle)
    ensures RemoveFromIndex([c], 0) == ([], true)
    ensures RemoveFromIndexAsWritten([c], 0).Err?
  {
  }

  /** The position of the first child whose globalId equals `id` (getChildIndex). */
  function IndexOfId<P>(nodes: map<Handle, Node<P>>, hs: seq<Handle>, id: int): (r: Option<nat>)
    requires forall k :: 0 <= k < |hs| ==> hs[k] in nodes
    ensures r.Some? ==> r.value < |hs| && nodes[hs[r.value]].globalId == id
    ensures r.Some? ==> forall k :: 0 <= k < r.value ==> nodes[hs[k]].globalId != id
    ensures r.None? ==> forall k :: 0 <= k < |hs| ==> nodes[hs[k]].globalId != id
  {
    if hs == [] then None
    else if nodes[hs[0]].globalId == id then Some(0)
    else
      var r := IndexOfId(nodes, hs[1..], id);
      if r.None? then None else Some(r.value + 1)
  }

  /** IndexOfId finds `i` when `i` is the first match, and nothing when no position below `i` matches and `i` is the end. */
  lemma {:induction false} IndexOfIdFirst<P>(nodes: map<Handle, Node<P>>, hs: seq<Handle>, id: int, i: nat)
    requires forall k :: 0 <= k < |hs| ==> hs[k] in nodes
    requires i <= |hs| && forall k :: 0 <= k < i ==> nodes[hs[k]].globalId != id
    requires i < |hs| ==> nodes[hs[i]].globalId == id
    ensures IndexOfId(nodes, hs, id) == if i < |hs| then Some(i) else None
  {
    var r := IndexOfId(nodes, hs, id);
    if r.Some? {
      assert r.value >= i;
    }
  }

  // ---------------------------------------------------------------------
  // Structural updates keep the arena ranked
  // ---------------------------------------------------------------------

  /** `h` is `n` or lies below `n` on parent pointers. */
  ghost predicate Below<P>(s: Store<P>, h: Handle, n: Handle)
    requires Ranked(s) && h in s.nodes
  {
    h == n || n in Ancestry(s, h)
  }

  lemma BelowParent<P>(s: Store<P>, h: Handle, n: Handle)
    requires Ranked(s) && h in s.nodes
    ensures s.nodes[h].parent.None? ==> (Below(s, h, n) <==> h == n)
    ensures s.nodes[h].parent.Some? ==>
              s.nodes[h].parent.value in s.nodes &&
              (Below(s, h, n) <==> h == n || Below(s, s.nodes[h].parent.value, n))
  {
    assert ParentBelow(s, h);
  }

  /** A node no other node points at is below nothing but itself. */
  lemma {:induction false} NotBelowUnreferenced<P>(s: Store<P>, h: Handle, n: Handle)
    requires Ranked(s) && h in s.nodes && h != n
    requires forall x :: x in s.nodes ==> s.nodes[x].parent != Some(n)
    decreases s.rank[h]
    ensures !Below(s, h, n)
  {
    BelowParent(s, h, n);
    var p := s.nodes[h].parent;
    if p.Some? {
      assert ParentBelow(s, h);
      NotBelowUnreferenced(s, p.value, n);
    }
  }

  /** A node lies below nothing ranked above it. */
  lemma {:induction false} BelowRank<P>(s: Store<P>, y: Handle, x: Handle)
    requires Ranked(s) && y in s.nodes && x in s.nodes && Below(s, y, x)
    decreases s.rank[y]
    ensures s.rank[x] <= s.rank[y]
  {
    BelowParent(s, y, x);
    if y != x {
      var p := s.nodes[y].parent.value;
      assert ParentBelow(s, y);
      BelowRank(s, p, x);
    }
  }

  /** What lies below a child lies below its parent. */
  lemma {:induction false} BelowChild<P>(s: Store<P>, z: Handle, c: Handle, x: Handle)
    requires Ranked(s) && z in s.nodes && c in s.nodes && s.nodes[c].parent == Some(x)
    requires Below(s, z, c)
    decreases s.rank[z]
    ensures Below(s, z, x)
  {
    BelowParent(s, z, c);
    BelowParent(s, z, x);
    if z == c {
      BelowParent(s, x, x);
    } else {
      var p := s.nodes[z].parent.value;
      assert ParentBelow(s, z);
      BelowChild(s, p, c, x);
    }
  }

  /** The node record `n` gets when `t.addChild(n)` runs: depth one below `t`, parent `t`. */
  function Attached<P>(nodes: map<Handle, Node<P>>, t: Handle, n: Handle): Node<P>
    requires t in nodes && n in nodes
  {
    nodes[n].(depth := nodes[t].depth + 1, parent := Some(t))
  }

  /** The arena after `t.addChild(n, index)`. */
  function AddChildNodes<P>(nodes: map<Handle, Node<P>>, t: Handle, n: Handle, index: Option<int>): map<Handle, Node<P>>
    requires t in nodes && n in nodes
  {
    nodes[n := Attached(nodes, t, n)][t := nodes[t].(children := InsertAt(nodes[t].children, index, n))]
  }

  /** The ranks after attaching `n` under `t`: everything below `n` moves above `t`. */
  ghost function AddChildRanks<P>(s: Store<P>, t: Handle, n: Handle): map<Handle, nat>
    requires Ranked(s) && t in s.nodes
  {
    map h | h in s.rank :: if Below(s, h, n) then s.rank[h] + s.rank[t] + 1 else s.rank[h]
  }

  /** After attaching, every node's rank stays below the doubled bound and above its parent's. */
  lemma AddChildParents<P>(s: Store<P>, t: Handle, n: Handle, index: Option<int>, h: Handle)
    requires Ranked(s) && t in s.nodes && n in s.nodes && h in s.nodes
    requires s.nodes[n].parent.None? && !Below(s, t, n)
    ensures var s' := Store(AddChildNodes(s.nodes, t, n, index), AddChildRanks(s, t, n), 2 * s.bound);
            h in s'.rank && s'.rank[h] < s'.bound && ParentBelow(s', h)
  {
    BelowParent(s, h, n);
    assert ParentBelow(s, h);
  }

  /** `n` is nobody's child while its parent is unset. */
  lemma UnparentedNotListed<P>(s: Store<P>, n: Handle, h: Handle)
    requires Ranked(s) && n in s.nodes && h in s.nodes && s.nodes[n].parent.None?
    ensures n !in s.nodes[h].children
  {
    assert ChildrenListed(s, h);
  }

  /** Attaching `n` leaves the child lists of the other nodes pointing back. */
  lemma AddChildOtherList<P>(s: Store<P>, t: Handle, n: Handle, index: Option<int>, h: Handle)
    requires Ranked(s) && t in s.nodes && n in s.nodes && h in s.nodes
    requires s.nodes[n].parent.None? && t != n && h != t
    ensures ChildrenListed(Store(AddChildNodes(s.nodes, t, n, index), AddChildRanks(s, t, n), 2 * s.bound), h)
  {
    assert ChildrenListed(s, h);
    UnparentedNotListed(s, n, h);
  }

  /** The new child list of `t` points back at `t` and repeats nothing. */
  lemma AddChildTargetList<P>(s: Store<P>, t: Handle, n: Handle, index: Option<int>)
    requires Ranked(s) && t in s.nodes && n in s.nodes
    requires s.nodes[n].parent.None? && t != n
    ensures ChildrenListed(Store(AddChildNodes(s.nodes, t, n, index), AddChildRanks(s, t, n), 2 * s.bound), t)
  {
    var nodes' := AddChildNodes(s.nodes, t, n, index);
    var ch := s.nodes[t].children;
    assert ChildrenListed(s, t);
    UnparentedNotListed(s, n, t);
    InsertAtDistinct(ch, index, n);
    var ch' := InsertAt(ch, index, n);
    assert nodes'[t].children == ch';
    forall k | 0 <= k < |ch'|
      ensures ch'[k] in nodes' && nodes'[ch'[k]].parent == Some(t)
    {
      if ch'[k] != n {
        assert ch'[k] in ch;
        var j :| 0 <= j < |ch| && ch[j] == ch'[k];
      }
    }
  }

  lemma AddChildRanked<P>(s: Store<P>, t: Handle, n: Handle, index: Option<int>)
    requires Ranked(s) && t in s.nodes && n in s.nodes
    requires s.nodes[n].parent.None? && !Below(s, t, n)
    ensures Ranked(Store(AddChildNodes(s.nodes, t, n, index), AddChildRanks(s, t, n), 2 * s.bound))
  {
    var s' := Store(AddChildNodes(s.nodes, t, n, index), AddChildRanks(s, t, n), 2 * s.bound);
    assert s'.nodes.Keys == s.nodes.Keys;
    assert t != n by { assert Below(s, n, n); }
    forall h | h in s'.nodes
      ensures s'.rank[h] < s'.bound && ParentBelow(s', h) && ChildrenListed(s', h)
    {
      AddChildParents(s, t, n, index, h);
      if h == t {
        AddChildTargetList(s, t, n, index);
      } else {
        AddChildOtherList(s, t, n, index, h);
      }
    }
  }

  lemma AttachedUnreferenced<P>(s: Store<P>, n: Handle)
    requires Ranked(s) && n !in s.nodes
    ensures forall x :: x in s.nodes ==> s.nodes[x].parent != Some(n)
  {
    forall x | x in s.nodes
      ensures s.nodes[x].parent != Some(n)
    {
      assert ParentBelow(s, x);
    }
  }

  lemma NewNodeRanked<P>(s: Store<P>, h: Handle, node: Node<P>)
    requires Ranked(s) && h !in s.nodes && node.parent.None? && node.children == []
    ensures Ranked(Store(s.nodes[h := node], s.rank[h := 0], s.bound + 1))
  {
    var s' := Store(s.nodes[h := node], s.rank[h := 0], s.bound + 1);
    forall x | x in s'.nodes
      ensures ParentBelow(s', x) && ChildrenListed(s', x)
    {
      if x != h {
        assert ParentBelow(s, x);
        assert ChildrenListed(s, x);
        var ch := s.nodes[x].children;
        forall k | 0 <= k < |ch| ensures ch[k] != h { }
      }
    }
  }

  lemma RemoveChildRanked<P>(s: Store<P>, t: Handle, k: nat)
    requires Ranked(s) && t in s.nodes && k < |s.nodes[t].children|
    ensures Ranked(Store(s.nodes[t := s.nodes[t].(children := RemoveIndex(s.nodes[t].children, k))], s.rank, s.bound))
  {
    var ch := s.nodes[t].children;
    var s' := Store(s.nodes[t := s.nodes[t].(children := RemoveIndex(ch, k))], s.rank, s.bound);
    forall x | x in s'.nodes
      ensures ParentBelow(s', x) && ChildrenListed(s', x)
    {
      assert ParentBelow(s, x);
      assert ChildrenListed(s, x);
      if x == t {
        RemoveIndexDistinct(ch, k);
        var r := RemoveIndex(ch, k);
        forall j | 0 <= j < |r|
          ensures r[j] in s'.nodes && s'.nodes[r[j]].parent == Some(t)
        {
          if j < k { assert r[j] == ch[j]; } else { assert r[j] == ch[j + 1]; }
        }
      }
    }
  }

  lemma SetPayloadRanked<P>(s: Store<P>, h: Handle, payload: P)
    requires Ranked(s) && h in s.nodes
    ensures Ranked(Store(s.nodes[h := s.nodes[h].(payload := payload)], s.rank, s.bound))
  {
    var s' := Store(s.nodes[h := s.nodes[h].(payload := payload)], s.rank, s.bound);
    forall x | x in s'.nodes
      ensures ParentBelow(s', x) && ChildrenListed(s', x)
    {
      assert ParentBelow(s, x);
      assert ChildrenListed(s, x);
    }
  }

  lemma SetIdRanked<P>(s: Store<P>, h: Handle, id: int)
    requires Ranked(s) && h in s.nodes
    ensures Ranked(Store(s.nodes[h := s.nodes[h].(globalId := id)], s.rank, s.bound))
  {
    var s' := Store(s.nodes[h := s.nodes[h].(globalId := id)], s.rank, s.bound);
    forall x | x in s'.nodes
      ensures ParentBelow(s', x) && ChildrenListed(s', x)
    {
      assert ParentBelow(s, x);
      assert ChildrenListed(s, x);
    }
  }

  /** The first kept node is the node FirstMatchIndex finds. */
  lemma HeadMatchingIsFirst<P>(s: Store<P>, vs: seq<Handle>, sel: Selector)
    requires Ranked(s) && AllIn(s, vs)
    ensures var i := FirstMatchIndex(s, vs, sel);
            Head(Matching(s, vs, sel)) == if i.None? then None else Some(vs[i.value])
  {
    var i := FirstMatchIndex(s, vs, sel);
    if i.None? {
      MatchingNone(s, vs, sel);
    } else {
      var k := i.value;
      assert vs == vs[..k] + [vs[k]] + vs[k + 1..];
      MatchingAfterMisses(s, vs[..k], vs[k], vs[k + 1..], sel);
    }
  }

  /** With every node shallow enough and no `lowest`, the traversal reaches exactly the subtree. */
  lemma TraverseCoversSubtree<P>(s: Store<P>, q: seq<Handle>, limit: int, x: Handle)
    requires Ranked(s) && AllIn(s, q) && Shallow(s, Pre(s, q), limit)
    ensures x in Traverse(s, q, limit, None) <==> x in Pre(s, q)
  {
    VisitAllIsPre(s, q, limit, MaxId(0));
    assert x in Traverse(s, q, limit, None) <==> x in multiset(Traverse(s, q, limit, None));
    assert x in Pre(s, q) <==> x in multiset(Pre(s, q));
  }

  /** Matching one more node at the end. */
  lemma MatchingSnoc<P>(s: Store<P>, hs: seq<Handle>, x: Handle, sel: Selector)
    requires Ranked(s) && AllIn(s, hs) && x in s.nodes
    ensures AllIn(s, hs + [x])
    ensures Matching(s, hs + [x], sel) == Matching(s, hs, sel) + (if NodeMatches(s, x, sel) then [x] else [])
  {
    assert (hs + [x])[..|hs|] == hs;
  }

  /** Running the callback on one more node at the end. */
  lemma RunSnoc<P>(s: Store<P>, cb: Callback, vs: seq<Handle>, x: Handle)
    requires Ranked(s) && AllIn(s, vs) && x in s.nodes
    ensures AllIn(s, vs + [x])
    ensures Run(s, cb, vs + [x]) == Apply(Run(s, cb, vs), x, s.nodes[x].globalId, Matched(s, Run(s, cb, vs), x)).0
  {
    assert (vs + [x])[..|vs|] == vs;
  }

  /** One step of the parent walk: the chain from `p` is `p` and then the chain from its parent. */
  lemma UpStep<P>(s: Store<P>, p: Handle)
    requires Ranked(s) && p in s.nodes
    ensures var q := s.nodes[p].parent;
            (q.Some? ==> q.value in s.nodes && s.rank[q.value] < s.rank[p]) &&
            Up(s, Some(p)) == [p] + Up(s, q)
  {
    assert ParentBelow(s, p);
  }

  /** One more ancestor walked: the walked part grows by `p`, the part still ahead loses it. */
  lemma UpWalk<P>(s: Store<P>, done: seq<Handle>, p: Handle, all: seq<Handle>)
    requires Ranked(s) && p in s.nodes && done + Up(s, Some(p)) == all
    ensures var q := s.nodes[p].parent;
            (q.Some? ==> q.value in s.nodes && s.rank[q.value] < s.rank[p]) &&
            (done + [p]) + Up(s, q) == all
  {
    UpStep(s, p);
    var q := s.nodes[p].parent;
    assert (done + [p]) + Up(s, q) == done + ([p] + Up(s, q));
  }

  /** The pre- and post-order of the first `i + 1` children, from those of the first `i`. */
  lemma OrdersSnoc<P>(s: Store<P>, ch: seq<Handle>, i: nat)
    requires Ranked(s) && AllIn(s, ch) && i < |ch|
    ensures AllIn(s, ch[..i]) && AllIn(s, [ch[i]])
    ensures Pre(s, ch[..i + 1]) == Pre(s, ch[..i]) + Pre(s, [ch[i]])
    ensures Post(s, ch[..i + 1]) == Post(s, ch[..i]) + Post(s, [ch[i]])
  {
    assert ch[..i + 1] == ch[..i] + [ch[i]];
    PreAppend(s, ch[..i], [ch[i]]);
    PostAppend(s, ch[..i], [ch[i]]);
  }

  /** The orders of a single tree: the root before, or after, the orders of its children. */
  lemma OrdersOfOne<P>(s: Store<P>, h: Handle)
    requires Ranked(s) && h in s.nodes
    ensures AllIn(s, s.nodes[h].children)
    ensures Pre(s, [h]) == [h] + Pre(s, s.nodes[h].children)
    ensures Post(s, [h]) == Post(s, s.nodes[h].children) + [h]
  {
    ChildrenIn(s, h);
    var ch := s.nodes[h].children;
    assert [h][1..] == [];
    assert Pre(s, [h]) == [h] + Pre(s, ch) + Pre(s, []);
    assert Post(s, [h]) == Post(s, ch) + [h] + Post(s, []);
  }

  /** Every child of `h` sits deeper than `h`, as addChild leaves it. */
  ghost predicate ChildrenDeeper<P>(s: Store<P>, h: Handle)
    requires Ranked(s) && h in s.nodes
  {
    ChildrenIn(s, h);
    forall k :: 0 <= k < |s.nodes[h].children| ==> s.nodes[s.nodes[h].children[k]].depth > s.nodes[h].depth
  }

  lemma ChildrenDeeperFlat<P>(s: Store<P>, h: Handle, lowest: Option<Selector>)
    requires Ranked(s) && h in s.nodes && ChildrenDeeper(s, h)
    ensures AllIn(s, s.nodes[h].children)
    ensures Traverse(s, s.nodes[h].children, s.nodes[h].depth, lowest) == s.nodes[h].children
  {
    ChildrenIn(s, h);
    TraverseFlat(s, s.nodes[h].children, s.nodes[h].depth, lowest);
  }

  /** What the FirstMatch callback holds after a stopping traversal: the first match of the full order. */
  lemma FirstMatchResult<P>(s: Store<P>, q: seq<Handle>, limit: int, lowest: Option<Selector>, sel: Selector)
    requires Ranked(s) && AllIn(s, q)
    ensures Run(s, FirstMatch(sel, None), Visit(s, q, limit, lowest, FirstMatch(sel, None))).FirstMatch?
    ensures Run(s, FirstMatch(sel, None), Visit(s, q, limit, lowest, FirstMatch(sel, None))).first
            == Head(Matching(s, Traverse(s, q, limit, lowest), sel))
  {
    var all := Traverse(s, q, limit, lowest);
    VisitStopsAtFirst(s, q, limit, lowest, sel, None);
    RunFirstMatch(s, sel, all);
    HeadMatchingIsFirst(s, all, sel);
  }

  /** What the Collect callback holds after the traversal: the matching nodes of the full order. */
  lemma CollectResult<P>(s: Store<P>, q: seq<Handle>, limit: int, lowest: Option<Selector>, sel: Selector)
    requires Ranked(s) && AllIn(s, q)
    ensures Run(s, Collect(sel, []), Visit(s, q, limit, lowest, Collect(sel, []))) == Collect(sel, Matching(s, Traverse(s, q, limit, lowest), sel))
  {
    VisitNonStopping(s, q, limit, lowest, Collect(sel, []));
    RunCollect(s, sel, Traverse(s, q, limit, lowest));
  }

  /** Two closure states of the same callback: same kind, same selector. */
  predicate SameKind(a: Callback, b: Callback)
  {
    a.FirstMatch? == b.FirstMatch? && UsesSelector(a) == UsesSelector(b) && (UsesSelector(a) ==> a.sel == b.sel)
  }

  /** One turn of breathTraveral's loop, on the head `n` of the queue, against Visit and Run. */
  lemma BreadthStep<P>(s: Store<P>, queue: seq<Handle>, limit: int, lowest: Option<Selector>, cb: Callback,
                       visited: seq<Handle>, out: Callback)
    requires Ranked(s) && AllIn(s, queue) && AllIn(s, visited) && queue != []
    requires out == Run(s, cb, visited) && SameKind(out, cb)
    ensures var n := queue[0];
            var step := Apply(out, n, s.nodes[n].globalId, Matched(s, out, n));
            && AllIn(s, visited + [n])
            && step.0 == Run(s, cb, visited + [n])
            && SameKind(step.0, cb)
            && (step.1 ==> visited + [n] == visited + Visit(s, queue, limit, lowest, cb))
            && (!step.1 ==> (visited + [n]) + Visit(s, Next(s, queue, limit, lowest), limit, lowest, cb) == visited + Visit(s, queue, limit, lowest, cb))
  {
    RunSnoc(s, cb, visited, queue[0]);
    var n := queue[0];
    var rest := Visit(s, Next(s, queue, limit, lowest), limit, lowest, cb);
    assert (visited + [n]) + rest == visited + ([n] + rest);
  }

  // ---------------------------------------------------------------------
  // Adding unreachable nodes changes no query
  // ---------------------------------------------------------------------

  /**
   * `big` holds every node of `small` with the same id, depth, parent and
   * children: only payloads and nodes created since may differ.
   */
  ghost predicate Extends<P>(small: Store<P>, big: Store<P>)
  {
    forall x :: x in small.nodes ==> x in big.nodes && SameLinks(small.nodes[x], big.nodes[x])
  }

  predicate SameLinks<P>(a: Node<P>, b: Node<P>)
  {
    a.globalId == b.globalId && a.depth == b.depth && a.parent == b.parent && a.children == b.children
  }

  lemma {:induction false} UpExtends<P>(s: Store<P>, t: Store<P>, p: Option<Handle>)
    requires Ranked(s) && Ranked(t) && Extends(s, t) && (p.Some? ==> p.value in s.nodes)
    decreases if p.Some? then s.rank[p.value] + 1 else 0
    ensures Up(t, p) == Up(s, p)
  {
    if p.Some? {
      assert ParentBelow(s, p.value);
      UpExtends(s, t, s.nodes[p.value].parent);
    }
  }

  lemma NodeMatchesExtends<P>(s: Store<P>, t: Store<P>, x: Handle, sel: Selector)
    requires Ranked(s) && Ranked(t) && Extends(s, t) && x in s.nodes
    ensures NodeMatches(t, x, sel) == NodeMatches(s, x, sel)
  {
    UpExtends(s, t, s.nodes[x].parent);
    var hs := [x] + Ancestry(s, x);
    assert Ids(t.nodes, hs) == Ids(s.nodes, hs);
  }

  lemma {:induction false} VisitExtends<P>(s: Store<P>, t: Store<P>, q: seq<Handle>, limit: int, lowest: Option<Selector>, cb: Callback)
    requires Ranked(s) && Ranked(t) && Extends(s, t) && AllIn(s, q)
    decreases ForestSize(s, q)
    ensures AllIn(t, q) && Visit(t, q, limit, lowest, cb) == Visit(s, q, limit, lowest, cb)
  {
    if q != [] {
      if cb.FirstMatch? {
        NodeMatchesExtends(s, t, q[0], cb.sel);
      }
      if lowest.Some? {
        NodeMatchesExtends(s, t, q[0], lowest.value);
      }
      assert Next(t, q, limit, lowest) == Next(s, q, limit, lowest);
      VisitExtends(s, t, Next(s, q, limit, lowest), limit, lowest, cb);
    }
  }

  lemma {:induction false} MatchingExtends<P>(s: Store<P>, t: Store<P>, hs: seq<Handle>, sel: Selector)
    requires Ranked(s) && Ranked(t) && Extends(s, t) && AllIn(s, hs)
    decreases |hs|
    ensures AllIn(t, hs) && Matching(t, hs, sel) == Matching(s, hs, sel)
  {
    if hs != [] {
      NodeMatchesExtends(s, t, hs[|hs| - 1], sel);
      MatchingExtends(s, t, hs[..|hs| - 1], sel);
    }
  }

  /** `x` is the start node `r`, or its parent lists it among its children. */
  ghost predicate HangsFrom<P>(s: Store<P>, r: Handle, x: Handle)
    requires x in s.nodes
  {
    x == r || (s.nodes[x].parent.Some? && s.nodes[x].parent.value in s.nodes &&
               x in s.nodes[s.nodes[x].parent.value].children)
  }

  ghost predicate AllHangFrom<P>(s: Store<P>, r: Handle, q: seq<Handle>)
    requires AllIn(s, q)
  {
    forall k :: 0 <= k < |q| ==> HangsFrom(s, r, q[k])
  }

  /** A traversal from `r` only reaches `r` and nodes listed by their parents. */
  lemma {:induction false} VisitHangsFrom<P>(s: Store<P>, r: Handle, q: seq<Handle>, limit: int, lowest: Option<Selector>, cb: Callback)
    requires Ranked(s) && AllIn(s, q) && AllHangFrom(s, r, q)
    decreases ForestSize(s, q)
    ensures AllHangFrom(s, r, Visit(s, q, limit, lowest, cb))
  {
    if q != [] && !Stops(s, cb, q[0]) {
      var next := Next(s, q, limit, lowest);
      assert ChildrenListed(s, q[0]);
      assert AllHangFrom(s, r, next);
      VisitHangsFrom(s, r, next, limit, lowest, cb);
      var vs := Visit(s, q, limit, lowest, cb);
      var rest := Visit(s, next, limit, lowest, cb);
      assert vs == [q[0]] + rest;
      forall k | 0 <= k < |vs|
        ensures HangsFrom(s, r, vs[k])
      {
        if k > 0 {
          assert vs[k] == rest[k - 1];
        }
      }
    }
  }

  /** The options object breathTraveral reads (the callback is passed separately). */
  datatype TraversalOptions = TraversalOptions(excludeRoot: Option<bool>, maxDepth: Option<int>, lowest: Option<Selector>)

  /** `a_opts = a_opts || {}`. */
  const NoOptions: TraversalOptions := TraversalOptions(None, None, None)

  /** The selector `ancestors` and `ancestor` use: `a_sel || [{}]`. */
  function SelectorOr(sel: Option<Selector>): Selector
  {
    if sel.None? then [AnyNode] else sel.value
  }

  /** find's option rewrite: excludeRoot is true unless it was exactly false. */
  function FindExclude(opts: TraversalOptions): bool
  {
    opts.excludeRoot != Some(false)
  }

  /**
   * The arena of node objects with the shared counter `_nGId`
   * (BlreCompositeLeafNode._nGId) and the allocator of handles.
   */
  class Forest<P> {
    var nodes: map<Handle, Node<P>>
    var nextId: int
    var nextHandle: nat
    ghost var rank: map<Handle, nat>
    ghost var bound: nat

    ghost function View(): Store<P>
      reads this
    {
      Store(nodes, rank, bound)
    }

    ghost predicate Valid()
      reads this
    {
      Ranked(View()) && forall h :: h in nodes ==> h < nextHandle
    }

    /** The empty arena; `_nGId` starts at 1. */
    constructor()
      ensures Valid() && nodes == map[] && nextId == 1
    {
      nodes := map[];
      nextId := 1;
      nextHandle := 0;
      rank := map[];
      bound := 1;
    }

    /** nextGlobalId: hands out the counter and increments it. */
    method NextGlobalId() returns (id: int)
      requires Valid()
      modifies this
      ensures Valid() && id == old(nextId) && nextId == old(nextId) + 1
      ensures nodes == old(nodes) && nextHandle == old(nextHandle) && rank == old(rank) && bound == old(bound)
    {
      id := nextId;
      nextId := nextId + 1;
    }

    /** setGlobalId. */
    method SetGlobalId(value: int)
      requires Valid()
      modifies this
      ensures Valid() && nextId == value
      ensures nodes == old(nodes) && nextHandle == old(nextHandle) && rank == old(rank) && bound == old(bound)
    {
      nextId := value;
    }

    /** `new BlreCompositeNode()`: no parent, depth 0, no children, the next global id. */
    method NewNode(payload: P) returns (h: Handle)
      requires Valid()
      modifies this
      ensures Valid() && h !in old(nodes)
      ensures nodes == old(nodes)[h := Node(old(nextId), 0, None, [], payload)]
      ensures nextId == old(nextId) + 1
      ensures forall x :: x in nodes ==> nodes[x].parent != Some(h)
    {
      var id := NextGlobalId();
      h := nextHandle;
      var node := Node(id, 0, None, [], payload);
      ghost var s := View();
      assert h !in s.nodes;
      AttachedUnreferenced(s, h);
      NewNodeRanked(s, h, node);
      nodes, rank, bound, nextHandle := nodes[h := node], rank[h := 0], bound + 1, nextHandle + 1;
      assert View() == Store(s.nodes[h := node], s.rank[h := 0], s.bound + 1);
    }

    /** The payload fields a subclass assigns directly (html, templateData). */
    method SetPayload(h: Handle, payload: P)
      requires Valid() && h in nodes
      modifies this
      ensures Valid() && nodes == old(nodes)[h := old(nodes)[h].(payload := payload)]
      ensures nextId == old(nextId) && nextHandle == old(nextHandle)
    {
      SetPayloadRanked(View(), h, payload);
      nodes := nodes[h := nodes[h].(payload := payload)];
    }

    /** A direct assignment to a node's `globalId` field, bypassing the counter. */
    method SetId(h: Handle, id: int)
      requires Valid() && h in nodes
      modifies this
      ensures Valid() && nodes == old(nodes)[h := old(nodes)[h].(globalId := id)]
      ensures nextId == old(nextId) && nextHandle == old(nextHandle)
    {
      SetIdRanked(View(), h, id);
      nodes := nodes[h := nodes[h].(globalId := id)];
    }

    /** _makeAncestorsArray: the parent chain, nearest first. */
    method MakeAncestorsArray(h: Handle) returns (ancs: seq<Handle>)
      requires Valid() && h in nodes
      ensures ancs == Ancestry(View(), h)
    {
      ancs := [];
      var p := nodes[h].parent;
      assert ParentBelow(View(), h);
      while p.Some?
        invariant p.Some? ==> p.value in nodes
        invariant ancs + Up(View(), p) == Ancestry(View(), h)
        decreases if p.Some? then rank[p.value] + 1 else 0
      {
        assert ParentBelow(View(), p.value);
        ancs := ancs + [p.value];
        p := nodes[p.value].parent;
      }
    }

    /** `is`: the node and its ancestors, as the ids `_match` compares, run through the cursor loop. */
    method Is(h: Handle, sel: Selector) returns (b: bool)
      requires Valid() && h in nodes
      ensures b == NodeMatches(View(), h, sel)
    {
      var ancs := MakeAncestorsArray(h);
      ancs := [h] + ancs;
      var chain := Ids(nodes, ancs);
      b := MatchLoop(chain, sel);
    }

    /** ancestors: the ancestors matching the selector (all of them by default), nearest first. */
    method Ancestors(h: Handle, sel: Option<Selector>) returns (r: seq<Handle>)
      requires Valid() && h in nodes
      ensures r == Matching(View(), Ancestry(View(), h), SelectorOr(sel))
      ensures sel.None? ==> r == Ancestry(View(), h)
    {
      ghost var st := View();
      var s := SelectorOr(sel);
      r := [];
      ghost var done: seq<Handle> := [];
      var p := nodes[h].parent;
      while p.Some?
        invariant p.Some? ==> p.value in nodes
        invariant AllIn(st, done)
        invariant done + Up(st, p) == Ancestry(st, h)
        invariant r == Matching(st, done, s)
        decreases if p.Some? then rank[p.value] + 1 else 0
      {
        var x := p.value;
        UpWalk(st, done, x, Ancestry(st, h));
        var m := Is(x, s);
        MatchingSnoc(st, done, x, s);
        if m {
          r := r + [x];
        }
        done := done + [x];
        p := nodes[x].parent;
      }
      assert done == Ancestry(st, h);
      if sel.None? {
        MatchingAny(st, done);
      }
    }

    /** ancestor: the nearest ancestor matching the selector, if any. */
    method Ancestor(h: Handle, sel: Option<Selector>) returns (r: Option<Handle>)
      requires Valid() && h in nodes
      ensures r == Head(Matching(View(), Ancestry(View(), h), SelectorOr(sel)))
    {
      ghost var st := View();
      var s := SelectorOr(sel);
      ghost var done: seq<Handle> := [];
      var p := nodes[h].parent;
      while p.Some?
        invariant p.Some? ==> p.value in nodes
        invariant AllIn(st, done)
        invariant done + Up(st, p) == Ancestry(st, h)
        invariant forall k :: 0 <= k < |done| ==> !NodeMatches(st, done[k], s)
        decreases if p.Some? then rank[p.value] + 1 else 0
      {
        var x := p.value;
        UpWalk(st, done, x, Ancestry(st, h));
        var m := Is(x, s);
        if m {
          MatchingAfterMisses(st, done, x, Up(st, nodes[x].parent), s);
          return Some(x);
        }
        done := done + [x];
        p := nodes[x].parent;
      }
      assert done == Ancestry(st, h);
      MatchingNone(st, done, s);
      return None;
    }

    /** The test of line 217: the children of `n` are enqueued. */
    method ExpandsHere(n: Handle, limit: int, lowest: Option<Selector>) returns (e: bool)
      requires Valid() && n in nodes
      ensures e == Expands(View(), n, limit, lowest)
    {
      e := nodes[n].depth < limit;
      if e && lowest.Some? {
        var low := Is(n, lowest.value);
        e := !low;
      }
    }

    /** The `e.is(a_sel)` test inside a callback (the MaxId callback has none). */
    method MatchedHere(cb: Callback, n: Handle) returns (m: bool)
      requires Valid() && n in nodes
      ensures m == Matched(View(), cb, n)
    {
      m := false;
      if UsesSelector(cb) {
        m := Is(n, cb.sel);
      }
    }

    /**
     * breathTraveral with one of the three callbacks the queries pass it:
     * `visited` is the order the callback is called in, `out` the closure
     * state after the last call.
     */
    method BreadthTraversal(root: Handle, opts: TraversalOptions, cb: Callback) returns (visited: seq<Handle>, out: Callback)
      requires Valid() && root in nodes
      ensures visited == Visit(View(), StartQueue(nodes, root, opts.excludeRoot == Some(true)), Limit(opts.maxDepth, nodes[root].depth), opts.lowest, cb)
      ensures out == Run(View(), cb, visited)
    {
      ghost var st := View();
      var limit := Limit(opts.maxDepth, nodes[root].depth);
      var lowest := opts.lowest;
      var queue := StartQueue(nodes, root, opts.excludeRoot == Some(true));
      ChildrenIn(st, root);
      ghost var all := Visit(st, queue, limit, lowest, cb);
      visited := [];
      out := cb;
      while queue != []
        invariant AllIn(st, queue) && AllIn(st, visited)
        invariant visited + Visit(st, queue, limit, lowest, cb) == all
        invariant out == Run(st, cb, visited) && SameKind(out, cb)
        decreases ForestSize(st, queue)
      {
        var n := queue[0];
        ChildrenIn(st, n);
        var expand := ExpandsHere(n, limit, lowest);
        var next := queue[1..] + (if expand then nodes[n].children else []);
        var matched := MatchedHere(out, n);
        BreadthStep(st, queue, limit, lowest, cb, visited, out);
        var step := Apply(out, n, nodes[n].globalId, matched);
        visited := visited + [n];
        out := step.0;
        if step.1 {
          return;
        }
        assert next == Next(st, queue, limit, lowest);
        queue := next;
      }
    }

    /** depthTraversal with recording callbacks: `pre` in callback order, `post` in callbackPost order. */
    method DepthTraversal(h: Handle) returns (pre: seq<Handle>, post: seq<Handle>)
      requires Valid() && h in nodes
      decreases bound - rank[h]
      ensures pre == Pre(View(), [h]) && post == Post(View(), [h])
    {
      ChildrenIn(View(), h);
      var ch := nodes[h].children;
      var below: seq<Handle> := [];
      post := [];
      var i := 0;
      while i < |ch|
        invariant 0 <= i <= |ch|
        invariant below == Pre(View(), ch[..i])
        invariant post == Post(View(), ch[..i])
      {
        ChildRank(View(), h, i);
        assert rank[ch[i]] < bound;
        var p, q := DepthTraversal(ch[i]);
        OrdersSnoc(View(), ch, i);
        below := below + p;
        post := post + q;
        i := i + 1;
      }
      assert ch[..i] == ch;
      OrdersOfOne(View(), h);
      pre := [h] + below;
      post := post + [h];
    }

    /** find: the matching nodes of the traversal, in breadth-first order; the root is skipped unless excludeRoot is false. */
    method Find(h: Handle, sel: Selector, opts: TraversalOptions) returns (res: seq<Handle>)
      requires Valid() && h in nodes
      ensures res == Matching(View(), Traverse(View(), StartQueue(nodes, h, FindExclude(opts)), Limit(opts.maxDepth, nodes[h].depth), opts.lowest), sel)
    {
      var o := opts.(excludeRoot := Some(FindExclude(opts)));
      var visited, out := BreadthTraversal(h, o, Collect(sel, []));
      ChildrenIn(View(), h);
      CollectResult(View(), StartQueue(nodes, h, FindExclude(opts)), Limit(opts.maxDepth, nodes[h].depth), opts.lowest, sel);
      res := out.found;
    }

    /** children: find with maxDepth 0; with child depths kept up to date, exactly the matching children, in order. */
    method Children(h: Handle, sel: Selector, opts: TraversalOptions) returns (res: seq<Handle>)
      requires Valid() && h in nodes
      ensures res == Matching(View(), Traverse(View(), StartQueue(nodes, h, FindExclude(opts)), nodes[h].depth, opts.lowest), sel)
      ensures FindExclude(opts) && ChildrenDeeper(View(), h) ==> res == Matching(View(), nodes[h].children, sel)
    {
      var o := opts.(maxDepth := Some(0));
      assert FindExclude(o) == FindExclude(opts) && o.lowest == opts.lowest;
      assert Limit(o.maxDepth, nodes[h].depth) == nodes[h].depth;
      res := Find(h, sel, o);
      if FindExclude(opts) && ChildrenDeeper(View(), h) {
        ChildrenDeeperFlat(View(), h, opts.lowest);
      }
    }

    /** findFirst: the first matching node of the traversal, the root included. */
    method FindFirst(h: Handle, sel: Selector, opts: TraversalOptions) returns (r: Option<Handle>)
      requires Valid() && h in nodes
      ensures r == Head(Matching(View(), Traverse(View(), [h], Limit(opts.maxDepth, nodes[h].depth), opts.lowest), sel))
    {
      var o := opts.(excludeRoot := Some(false));
      var visited, out := BreadthTraversal(h, o, FirstMatch(sel, None));
      FirstMatchResult(View(), [h], Limit(opts.maxDepth, nodes[h].depth), opts.lowest, sel);
      r := out.first;
    }

    /** firstChild as written: findFirst with maxDepth 0 never looks past the node itself. */
    method FirstChild(h: Handle, sel: Selector, opts: TraversalOptions) returns (r: Option<Handle>)
      requires Valid() && h in nodes
      ensures r == if NodeMatches(View(), h, sel) then Some(h) else None
    {
      r := FindFirst(h, sel, opts.(maxDepth := Some(0)));
      TraverseFlat(View(), [h], nodes[h].depth, opts.lowest);
      assert [h][..0] == [];
    }

    /** firstChild as documented: the first child matching the selector. */
    method FirstMatchingChild(h: Handle, sel: Selector) returns (r: Option<Handle>)
      requires Valid() && h in nodes
      ensures r == Head(Matching(View(), Traverse(View(), nodes[h].children, nodes[h].depth, None), sel))
      ensures ChildrenDeeper(View(), h) ==> r == Head(Matching(View(), nodes[h].children, sel))
    {
      var visited, out := BreadthTraversal(h, TraversalOptions(Some(true), Some(0), None), FirstMatch(sel, None));
      ChildrenIn(View(), h);
      assert Limit(Some(0), nodes[h].depth) == nodes[h].depth;
      FirstMatchResult(View(), nodes[h].children, nodes[h].depth, None, sel);
      r := out.first;
      if ChildrenDeeper(View(), h) {
        ChildrenDeeperFlat(View(), h, None);
      }
    }

    /** getGreatestGlobalId: the largest id in the traversal from the node, and 0 when all are smaller. */
    method GetGreatestGlobalId(h: Handle) returns (m: int)
      requires Valid() && h in nodes
      ensures m == MaxOf(View(), 0, Traverse(View(), [h], Limit(None, nodes[h].depth), None))
      ensures Shallow(View(), Pre(View(), [h]), Limit(None, nodes[h].depth)) ==>
                forall x :: x in Pre(View(), [h]) ==> nodes[x].globalId <= m
    {
      var visited, out := BreadthTraversal(h, TraversalOptions(Some(false), None, None), MaxId(0));
      var limit := Limit(None, nodes[h].depth);
      VisitNonStopping(View(), [h], limit, None, MaxId(0));
      RunMaxId(View(), 0, visited);
      m := out.max;
      if Shallow(View(), Pre(View(), [h]), limit) {
        forall x | x in Pre(View(), [h])
          ensures nodes[x].globalId <= m
        {
          TraverseCoversSubtree(View(), [h], limit, x);
          var k :| 0 <= k < |visited| && visited[k] == x;
        }
      }
    }

    /** addChild: `n` goes to the end, or to the splice position of `index`; it gets `t` as parent and depth one below `t`. */
    method AddChild(t: Handle, n: Handle, index: Option<int>)
      requires Valid() && t in nodes && n in nodes
      requires nodes[n].parent.None? && !Below(View(), t, n)
      modifies this
      ensures Valid()
      ensures nodes == AddChildNodes(old(nodes), t, n, index)
      ensures nextId == old(nextId) && nextHandle == old(nextHandle)
    {
      AddChildRanked(View(), t, n, index);
      rank := AddChildRanks(View(), t, n);
      bound := 2 * bound;
      nodes := AddChildNodes(nodes, t, n, index);
    }

    /** getChildIndex: the position of the first child with the same global id. */
    method GetChildIndex(t: Handle, n: Handle) returns (r: Option<nat>)
      requires Valid() && t in nodes && n in nodes
      ensures r == IndexOfId(nodes, nodes[t].children, nodes[n].globalId)
    {
      ChildrenIn(View(), t);
      var ch := nodes[t].children;
      var id := nodes[n].globalId;
      var idx := 0;
      while idx < |ch|
        invariant 0 <= idx <= |ch|
        invariant forall k :: 0 <= k < idx ==> nodes[ch[k]].globalId != id
      {
        if nodes[ch[idx]].globalId == id {
          IndexOfIdFirst(nodes, ch, id, idx);
          return Some(idx);
        }
        idx := idx + 1;
      }
      IndexOfIdFirst(nodes, ch, id, |ch|);
      return None;
    }

    /** removeChild: drops the first child with the same global id and says whether there was one; the dropped node keeps its parent pointer. */
    method RemoveChild(t: Handle, n: Handle) returns (removed: bool)
      requires Valid() && t in nodes && n in nodes
      modifies this
      ensures Valid()
      ensures var idx := IndexOfId(old(nodes), old(nodes)[t].children, old(nodes)[n].globalId);
              removed == idx.Some? &&
              nodes == if idx.None? then old(nodes)
                       else old(nodes)[t := old(nodes)[t].(children := RemoveIndex(old(nodes)[t].children, idx.value))]
      ensures nextId == old(nextId) && nextHandle == old(nextHandle)
    {
      var idx := GetChildIndex(t, n);
      if idx.Some? {
        RemoveChildRanked(View(), t, idx.value);
        nodes := nodes[t := nodes[t].(children := RemoveIndex(nodes[t].children, idx.value))];
        return true;
      }
      return false;
    }

    /** removeChildFromIndex, reading its parameter: the child at the splice position is dropped when `index` is below the count. */
    method RemoveChildAt(t: Handle, index: int) returns (removed: bool)
      requires Valid() && t in nodes
      modifies this
      ensures Valid()
      ensures var r := RemoveFromIndex(old(nodes)[t].children, index);
              removed == r.1 && nodes == old(nodes)[t := old(nodes)[t].(children := r.0)]
      ensures nextId == old(nextId) && nextHandle == old(nextHandle)
    {
      var ch := nodes[t].children;
      var r := RemoveFromIndex(ch, index);
      if r.1 && SpliceStart(index, |ch|) < |ch| {
        RemoveChildRanked(View(), t, SpliceStart(index, |ch|));
      } else {
        SetPayloadRanked(View(), t, nodes[t].payload);
        assert nodes[t := nodes[t].(children := r.0)] == nodes[t := nodes[t].(payload := nodes[t].payload)];
      }
      nodes := nodes[t := nodes[t].(children := r.0)];
      removed := r.1;
    }
  }
}
