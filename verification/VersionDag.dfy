/** The content causal graph: ancestry, merge bases, bounded reachability, the sweep. */
module VersionGraph {
  import opened Base

  /** One recorded version: its causal parents, its blob address and its file. */
  datatype Node = Node(parents: set<string>, contentHash: string, fileId: string)

  type Graph = map<string, Node>

  datatype MergeBase = NoBase | BaseOf(id: string) | Multiple

  // ------------------------------------------------------------------ ancestry

  /** The parents the graph records for an id; an unrecorded id has none. */
  function Parents(g: Graph, v: string): set<string> {
    if v in g then g[v].parents else {}
  }

  /** `to` is reached from `from` by `n` steps from a version to one of its parents. */
  ghost predicate Climbs(g: Graph, from: string, to: string, n: nat)
    decreases n
  {
    if n == 0 then from == to
    else exists p :: p in Parents(g, from) && Climbs(g, p, to, n - 1)
  }

  /** `a` is `d` itself or a transitive parent of it. */
  ghost predicate Ancestor(g: Graph, a: string, d: string) {
    exists n :: Climbs(g, d, a, n)
  }

  ghost predicate ProperAncestor(g: Graph, a: string, d: string) {
    exists n: nat :: n > 0 && Climbs(g, d, a, n)
  }

  ghost predicate Acyclic(g: Graph) {
    forall v :: !ProperAncestor(g, v, v)
  }

  lemma {:induction false} ClimbsAdd(g: Graph, x: string, y: string, z: string, m: nat, n: nat)
    requires Climbs(g, x, y, m) && Climbs(g, y, z, n)
    ensures Climbs(g, x, z, m + n)
    decreases m
  {
    if m > 0 {
      var p :| p in Parents(g, x) && Climbs(g, p, y, m - 1);
      ClimbsAdd(g, p, y, z, m - 1, n);
    }
  }

  lemma AncestorSelf(g: Graph, v: string)
    ensures Ancestor(g, v, v)
  {
    assert Climbs(g, v, v, 0);
  }

  lemma AncestorTransitive(g: Graph, x: string, y: string, z: string)
    requires Ancestor(g, x, y) && Ancestor(g, y, z)
    ensures Ancestor(g, x, z)
  {
    var m: nat, n: nat :| Climbs(g, y, x, m) && Climbs(g, z, y, n);
    ClimbsAdd(g, z, y, x, n, m);
  }

  lemma AncestorParent(g: Graph, a: string, d: string, p: string)
    requires p in Parents(g, d) && Ancestor(g, a, p)
    ensures Ancestor(g, a, d) && ProperAncestor(g, a, d)
  {
    var n: nat :| Climbs(g, p, a, n);
    assert Climbs(g, d, a, n + 1);
  }

  /** A proper ancestor is an ancestor of one of the parents. */
  lemma ProperViaParent(g: Graph, a: string, d: string)
    requires ProperAncestor(g, a, d)
    ensures exists p :: p in Parents(g, d) && Ancestor(g, a, p)
  {
    var n: nat :| n > 0 && Climbs(g, d, a, n);
    var p :| p in Parents(g, d) && Climbs(g, p, a, n - 1);
  }

  lemma ProperThen(g: Graph, x: string, y: string, z: string)
    requires ProperAncestor(g, x, y) && Ancestor(g, y, z)
    ensures ProperAncestor(g, x, z)
  {
    var m: nat, n: nat :| m > 0 && Climbs(g, y, x, m) && Climbs(g, z, y, n);
    ClimbsAdd(g, z, y, x, n, m);
  }

  lemma ThenProper(g: Graph, x: string, y: string, z: string)
    requires Ancestor(g, x, y) && ProperAncestor(g, y, z)
    ensures ProperAncestor(g, x, z)
  {
    var m: nat, n: nat :| n > 0 && Climbs(g, y, x, m) && Climbs(g, z, y, n);
    ClimbsAdd(g, z, y, x, n, m);
  }

  lemma AncestorIsSelfOrProper(g: Graph, a: string, d: string)
    ensures Ancestor(g, a, d) <==> a == d || ProperAncestor(g, a, d)
  {
    AncestorSelf(g, d);
    if Ancestor(g, a, d) {
      var n: nat :| Climbs(g, d, a, n);
    }
  }

  /** A set closed under parents holds every ancestor of its members. */
  lemma {:induction false} ClosedUnderClimbs(g: Graph, s: set<string>, from: string, to: string, n: nat)
    requires from in s && Climbs(g, from, to, n)
    requires forall v, p :: v in s && p in Parents(g, v) ==> p in s
    ensures to in s
    decreases n
  {
    if n > 0 {
      var p :| p in Parents(g, from) && Climbs(g, p, to, n - 1);
      ClosedUnderClimbs(g, s, p, to, n - 1);
    }
  }

  // ----------------------------------------------------------------- merge base

  ghost predicate Common(g: Graph, a: string, b: string, x: string) {
    Ancestor(g, x, a) && Ancestor(g, x, b)
  }

  /** `x` lies strictly above some common ancestor. */
  ghost predicate Dominated(g: Graph, a: string, b: string, x: string) {
    exists y :: Common(g, a, b, y) && ProperAncestor(g, x, y)
  }

  ghost predicate Maximal(g: Graph, a: string, b: string, x: string) {
    Common(g, a, b, x) && !Dominated(g, a, b, x)
  }

  ghost predicate OnlyMaximal(g: Graph, a: string, b: string, x: string) {
    Maximal(g, a, b, x) && forall y :: Maximal(g, a, b, y) ==> y == x
  }

  /** What `mergeBase` must answer. */
  ghost function MergeBaseOf(g: Graph, a: string, b: string): MergeBase {
    if forall x :: !Common(g, a, b, x) then NoBase
    else if exists x :: OnlyMaximal(g, a, b, x) then
      var x :| OnlyMaximal(g, a, b, x);
      BaseOf(x)
    else Multiple
  }

  lemma MergeBaseIs(g: Graph, a: string, b: string, x: string)
    ensures MergeBaseOf(g, a, b) == BaseOf(x) <==> OnlyMaximal(g, a, b, x)
  {
  }

  /** The answer does not depend on the order of the two versions. */
  lemma MergeBaseSymmetric(g: Graph, a: string, b: string)
    ensures MergeBaseOf(g, a, b) == MergeBaseOf(g, b, a)
  {
    assert forall x :: Common(g, a, b, x) <==> Common(g, b, a, x);
    assert forall x :: Maximal(g, a, b, x) <==> Maximal(g, b, a, x);
    forall x ensures OnlyMaximal(g, a, b, x) <==> OnlyMaximal(g, b, a, x) {
    }
    if x :| OnlyMaximal(g, a, b, x) {
      MergeBaseIs(g, a, b, x);
      MergeBaseIs(g, b, a, x);
    }
  }

  /** Every id the graph mentions, and the start. */
  function Universe(g: Graph, starts: set<string>): set<string> {
    starts + g.Keys + set v, p | v in g && p in g[v].parents :: p
  }

  lemma {:induction false} ClimbsStayInUniverse(g: Graph, starts: set<string>, from: string, to: string, n: nat)
    requires from in Universe(g, starts) && Climbs(g, from, to, n)
    ensures to in Universe(g, starts)
  {
    ClosedUnderClimbs(g, Universe(g, starts), from, to, n);
  }

  /** On an acyclic graph some maximal common ancestor lies at or below every common one. */
  lemma {:induction false} MaximalBelow(g: Graph, a: string, b: string, c: string, below: set<string>)
    returns (m: string)
    requires Acyclic(g) && Common(g, a, b, c)
    requires forall y :: Common(g, a, b, y) && ProperAncestor(g, c, y) ==> y in below
    ensures Maximal(g, a, b, m) && Ancestor(g, c, m)
    decreases |below|
  {
    if Dominated(g, a, b, c) {
      var y :| Common(g, a, b, y) && ProperAncestor(g, c, y);
      forall z | Common(g, a, b, z) && ProperAncestor(g, y, z) ensures z in below - {y} {
        AncestorIsSelfOrProper(g, c, y);
        ThenProper(g, c, y, z);
        assert z != y;
      }
      m := MaximalBelow(g, a, b, y, below - {y});
      AncestorIsSelfOrProper(g, c, y);
      AncestorTransitive(g, c, y, m);
    } else {
      m := c;
      AncestorSelf(g, c);
    }
  }

  lemma CommonBelow(g: Graph, a: string, b: string, c: string) returns (m: string)
    requires Acyclic(g) && Common(g, a, b, c)
    ensures Maximal(g, a, b, m) && Ancestor(g, c, m)
  {
    var u := Universe(g, {a});
    forall y | Common(g, a, b, y) ensures y in u {
      var n: nat :| Climbs(g, a, y, n);
      ClimbsStayInUniverse(g, {a}, a, y, n);
    }
    m := MaximalBelow(g, a, b, c, u);
  }

  /** On an acyclic graph the merge base is the lowest common ancestor: all others are above it. */
  lemma MergeBaseIsLowest(g: Graph, a: string, b: string, x: string, c: string)
    requires Acyclic(g) && MergeBaseOf(g, a, b) == BaseOf(x) && Common(g, a, b, c)
    ensures Ancestor(g, c, x)
  {
    MergeBaseIs(g, a, b, x);
    var m := CommonBelow(g, a, b, c);
  }

  /** A version and one of its ancestors: the ancestor is the base. */
  lemma MergeBaseOfLine(g: Graph, a: string, d: string)
    requires Acyclic(g) && Ancestor(g, a, d)
    ensures MergeBaseOf(g, a, d) == BaseOf(a) && MergeBaseOf(g, d, a) == BaseOf(a)
  {
    AncestorSelf(g, a);
    assert Common(g, a, d, a);
    forall y | Common(g, a, d, y) ensures !ProperAncestor(g, a, y) {
      if ProperAncestor(g, a, y) {
        ProperThen(g, a, y, a);
      }
    }
    forall y | Maximal(g, a, d, y) ensures y == a {
      AncestorIsSelfOrProper(g, y, a);
    }
    MergeBaseIs(g, a, d, a);
    MergeBaseSymmetric(g, a, d);
  }

  /** On an acyclic graph `Multiple` means two incomparable lowest common ancestors. */
  lemma MultipleMeansCrissCross(g: Graph, a: string, b: string)
    requires Acyclic(g)
    ensures MergeBaseOf(g, a, b) == Multiple <==>
      exists x, y :: Maximal(g, a, b, x) && Maximal(g, a, b, y) && x != y
  {
    if MergeBaseOf(g, a, b) == Multiple {
      var c :| Common(g, a, b, c);
      var x := CommonBelow(g, a, b, c);
      assert !OnlyMaximal(g, a, b, x);
    }
  }

  /** A strict rank from parents to children rules cycles out (op-ids grow from parent to child). */
  lemma {:induction false} ClimbsLowersRank(g: Graph, rank: string -> int, from: string, to: string, n: nat)
    requires forall v, p :: p in Parents(g, v) ==> rank(p) < rank(v)
    requires Climbs(g, from, to, n)
    ensures rank(to) <= rank(from) && (n > 0 ==> rank(to) < rank(from))
    decreases n
  {
    if n > 0 {
      var p :| p in Parents(g, from) && Climbs(g, p, to, n - 1);
      ClimbsLowersRank(g, rank, p, to, n - 1);
    }
  }

  lemma RankedIsAcyclic(g: Graph, rank: string -> int)
    requires forall v, p :: p in Parents(g, v) ==> rank(p) < rank(v)
    ensures Acyclic(g)
  {
    forall v ensures !ProperAncestor(g, v, v) {
      if ProperAncestor(g, v, v) {
        var n: nat :| n > 0 && Climbs(g, v, v, n);
        ClimbsLowersRank(g, rank, v, v, n);
      }
    }
  }

  // -------------------------------------------------------- bounded reachability

  /** The optional byte-availability check that cuts the walk. */
  datatype Bounds = Bounds(has: Option<string -> bool>, maxDepth: Option<nat>)

  predicate WithinDepth(bounds: Bounds, depth: nat) {
    bounds.maxDepth.Some? ==> depth <= bounds.maxDepth.value
  }

  /** A version the walk continues past: its bytes are held, or it names no bytes at all. */
  predicate Passable(g: Graph, bounds: Bounds, v: string) {
    v in g && (bounds.has.None? || g[v].contentHash == "" || bounds.has.value(g[v].contentHash))
  }

  /** `v` is `n` steps above `start` by a path whose versions past the start and before `v` are passable. */
  ghost predicate OpenClimb(g: Graph, bounds: Bounds, start: string, v: string, n: nat)
    decreases n
  {
    if n == 0 then v == start
    else exists q :: OpenClimb(g, bounds, start, q, n - 1) && (n == 1 || Passable(g, bounds, q)) && v in Parents(g, q)
  }

  /** `v` is visited by the walk. */
  ghost predicate WalkedTo(g: Graph, bounds: Bounds, start: string, v: string) {
    exists n :: WithinDepth(bounds, n) && OpenClimb(g, bounds, start, v, n)
  }

  /** The hashes `reachableContentHashes` must return. */
  ghost predicate ReachesHash(g: Graph, bounds: Bounds, start: string, hash: string) {
    hash != "" && exists v :: v in g && WalkedTo(g, bounds, start, v) && g[v].contentHash == hash
  }

  lemma {:induction false} OpenClimbIsClimb(g: Graph, bounds: Bounds, start: string, v: string, n: nat)
    requires OpenClimb(g, bounds, start, v, n)
    ensures Climbs(g, start, v, n)
    decreases n
  {
    if n > 0 {
      var q :| OpenClimb(g, bounds, start, q, n - 1) && (n == 1 || Passable(g, bounds, q)) && v in Parents(g, q);
      OpenClimbIsClimb(g, bounds, start, q, n - 1);
      assert Climbs(g, v, v, 0);
      assert Climbs(g, q, v, 1);
      ClimbsAdd(g, start, q, v, n - 1, 1);
    }
  }

  lemma {:induction false} ClimbIsOpenClimb(g: Graph, bounds: Bounds, start: string, v: string, n: nat)
    requires Climbs(g, start, v, n)
    requires bounds.has.None?
    ensures OpenClimb(g, bounds, start, v, n)
    decreases n
  {
    if n > 0 {
      var q := LastStep(g, start, v, n);
      ClimbIsOpenClimb(g, bounds, start, q, n - 1);
      assert Passable(g, bounds, q);
    }
  }

  lemma {:induction false} LastStep(g: Graph, start: string, v: string, n: nat) returns (q: string)
    requires n > 0 && Climbs(g, start, v, n)
    ensures Climbs(g, start, q, n - 1) && v in Parents(g, q)
    decreases n
  {
    var p :| p in Parents(g, start) && Climbs(g, p, v, n - 1);
    if n == 1 {
      q := start;
    } else {
      q := LastStep(g, p, v, n - 1);
    }
  }

  /** Without bounds the walk reaches exactly the hashes of all ancestors. */
  lemma UnboundedReachesAllAncestors(g: Graph, start: string, hash: string)
    ensures ReachesHash(g, Bounds(None, None), start, hash) <==>
      hash != "" && exists v :: v in g && Ancestor(g, v, start) && g[v].contentHash == hash
  {
    var free := Bounds(None, None);
    forall v ensures WalkedTo(g, free, start, v) <==> Ancestor(g, v, start) {
      if WalkedTo(g, free, start, v) {
        var n: nat :| WithinDepth(free, n) && OpenClimb(g, free, start, v, n);
        OpenClimbIsClimb(g, free, start, v, n);
      }
      if Ancestor(g, v, start) {
        var n: nat :| Climbs(g, start, v, n);
        ClimbIsOpenClimb(g, free, start, v, n);
        assert WithinDepth(free, n);
      }
    }
  }

  // ------------------------------------------------------------------- mutation

  /** `addVersion` on the node of one id. */
  function MergedNode(g: Graph, id: string, parents: set<string>, contentHash: string, fileId: string): Node {
    if id !in g then Node(parents - {id}, contentHash, fileId)
    else
      Node(g[id].parents + (parents - {id}),
        if g[id].contentHash == "" then contentHash else g[id].contentHash,
        if g[id].fileId == "" then fileId else g[id].fileId)
  }

  function AddVersion(g: Graph, id: string, parents: set<string>, contentHash: string, fileId: string): Graph {
    g[id := MergedNode(g, id, parents, contentHash, fileId)]
  }

  // --------------------------------------------------------------------- leaves

  ghost predicate HasChild(g: Graph, id: string) {
    exists v :: v in g && id in g[v].parents
  }

  /** An open leaf of a file. */
  ghost predicate Leaf(g: Graph, fileId: string, id: string) {
    id in g && g[id].fileId == fileId && !HasChild(g, id)
  }

  // ---------------------------------------------------------------- the worklists

  ghost predicate ReachedFrom(g: Graph, starts: set<string>, x: string) {
    exists s :: s in starts && Ancestor(g, x, s)
  }

  lemma AncestorIsReached(g: Graph, a: string, d: string)
    ensures Ancestor(g, a, d) <==> ReachedFrom(g, {d}, a)
  {
  }

  /** State of an upward worklist: nothing unreachable is in it, nothing reachable is forgotten. */
  ghost predicate Exploring(g: Graph, starts: set<string>, seen: set<string>, stack: seq<string>) {
    && (forall x :: x in seen ==> ReachedFrom(g, starts, x))
    && (forall x :: x in stack ==> ReachedFrom(g, starts, x))
    && (forall s :: s in starts ==> s in seen || s in stack)
    && (forall x :: x in seen ==> Expanded(g, seen, stack, x))
  }

  /** The same, and the version looked for has not turned up. */
  ghost predicate Searching(g: Graph, starts: set<string>, seen: set<string>, stack: seq<string>, target: string) {
    Exploring(g, starts, seen, stack) && target !in seen && target !in stack
  }

  /** Every parent of `x` was seen or waits on the stack. */
  ghost predicate Expanded(g: Graph, seen: set<string>, stack: seq<string>, x: string) {
    forall p :: p in Parents(g, x) ==> p in seen || p in stack
  }

  lemma ExploredAll(g: Graph, starts: set<string>, seen: set<string>)
    requires Exploring(g, starts, seen, [])
    ensures forall x :: x in seen <==> ReachedFrom(g, starts, x)
  {
    forall x | ReachedFrom(g, starts, x) ensures x in seen {
      var s :| s in starts && Ancestor(g, x, s);
      var n: nat :| Climbs(g, s, x, n);
      assert forall v, p :: v in seen && p in Parents(g, v) ==> Expanded(g, seen, [], v);
      ClosedUnderClimbs(g, seen, s, x, n);
    }
  }

  lemma ReachedParent(g: Graph, starts: set<string>, x: string, p: string)
    requires ReachedFrom(g, starts, x) && p in Parents(g, x)
    ensures ReachedFrom(g, starts, p)
  {
    var s :| s in starts && Ancestor(g, x, s);
    AncestorSelf(g, p);
    AncestorParent(g, p, x, p);
    AncestorTransitive(g, p, x, s);
  }

  /** Popping `cur` and pushing its parents keeps the exploration. */
  lemma ExploreStep(
    g: Graph, starts: set<string>, seen: set<string>, rest: seq<string>, cur: string, next: seq<string>)
    requires Exploring(g, starts, seen, rest + [cur])
    requires forall x :: x in next <==> x in rest || x in Parents(g, cur)
    ensures Exploring(g, starts, seen + {cur}, next)
  {
    assert cur in rest + [cur];
    forall x | x in next ensures ReachedFrom(g, starts, x) {
      if x in rest {
        assert x in rest + [cur];
      } else {
        ReachedParent(g, starts, cur, x);
      }
    }
    forall x | x in seen + {cur} ensures Expanded(g, seen + {cur}, next, x) {
      if x in seen {
        assert Expanded(g, seen, rest + [cur], x);
      }
    }
  }

  lemma ExploreSkip(g: Graph, starts: set<string>, seen: set<string>, rest: seq<string>, cur: string)
    requires cur in seen && Exploring(g, starts, seen, rest + [cur])
    ensures Exploring(g, starts, seen, rest)
  {
    forall x | x in rest ensures ReachedFrom(g, starts, x) {
      assert x in rest + [cur];
    }
    forall x | x in seen ensures Expanded(g, seen, rest, x) {
      assert Expanded(g, seen, rest + [cur], x);
    }
  }

  lemma SearchPops(
    g: Graph, starts: set<string>, seen: set<string>, stack: seq<string>, rest: seq<string>, cur: string, target: string)
    requires stack != [] && rest == stack[..|stack| - 1] && cur == stack[|stack| - 1]
    requires Searching(g, starts, seen, stack, target)
    ensures cur in seen ==> Searching(g, starts, seen, rest, target)
    ensures Exploring(g, starts, seen, rest + [cur]) && target !in seen + {cur} && target !in rest
  {
    LastParts(stack);
    if cur in seen {
      ExploreSkip(g, starts, seen, rest, cur);
    }
  }

  /** `for (const p of node.parents) stack.push(p)`, in whatever order the set yields. */
  method PushAll(stack0: seq<string>, items: set<string>) returns (stack: seq<string>)
    ensures forall x :: x in stack <==> x in stack0 || x in items
  {
    stack := stack0;
    var todo := items;
    while todo != {}
      invariant todo <= items
      invariant forall x :: x in stack <==> x in stack0 || (x in items && x !in todo)
      decreases todo
    {
      var p :| p in todo;
      stack := stack + [p];
      todo := todo - {p};
    }
  }

  lemma ReachedInUniverse(g: Graph, starts: set<string>, x: string)
    requires ReachedFrom(g, starts, x)
    ensures x in Universe(g, starts)
  {
    var s :| s in starts && Ancestor(g, x, s);
    var n: nat :| Climbs(g, s, x, n);
    ClimbsStayInUniverse(g, starts, s, x, n);
  }

  lemma ExploringStays(g: Graph, starts: set<string>, seen: set<string>, stack: seq<string>)
    requires Exploring(g, starts, seen, stack)
    ensures seen <= Universe(g, starts)
    ensures forall x :: x in stack ==> x in Universe(g, starts)
  {
    forall x | x in seen || x in stack ensures x in Universe(g, starts) {
      ReachedInUniverse(g, starts, x);
    }
  }

  lemma ExploreStart(g: Graph, starts: set<string>, stack: seq<string>)
    requires forall x :: x in stack <==> x in starts
    ensures Exploring(g, starts, {}, stack)
  {
    forall x | x in stack ensures ReachedFrom(g, starts, x) {
      AncestorSelf(g, x);
    }
  }

  /** The walk `ancestors` and the dominance marking share. */
  method Explore(g: Graph, ghost starts: set<string>, stack0: seq<string>) returns (seen: set<string>)
    requires forall x :: x in stack0 <==> x in starts
    ensures forall x :: x in seen <==> ReachedFrom(g, starts, x)
  {
    seen := {};
    var stack := stack0;
    ExploreStart(g, starts, stack);
    while |stack| > 0
      invariant Exploring(g, starts, seen, stack)
      decreases Universe(g, starts) - seen, |stack|
    {
      ghost var before := seen;
      var cur, rest := stack[|stack| - 1], stack[..|stack| - 1];
      assert stack == rest + [cur];
      if cur in seen {
        ExploreSkip(g, starts, seen, rest, cur);
        stack := rest;
        continue;
      }
      ExploringStays(g, starts, seen, stack);
      assert cur in stack;
      if cur in g {
        stack := PushAll(rest, g[cur].parents);
      } else {
        stack := rest;
      }
      ExploreStep(g, starts, seen, rest, cur, stack);
      seen := seen + {cur};
      assert cur in Universe(g, starts) - before && cur !in Universe(g, starts) - seen;
    }
    ExploredAll(g, starts, seen);
  }

  /** The parents of a whole set of versions. */
  function ParentsOf(g: Graph, vs: set<string>): set<string> {
    set v, p | v in vs && p in Parents(g, v) :: p
  }

  lemma DominatedIsReached(g: Graph, a: string, b: string, common: set<string>, x: string)
    requires forall y :: y in common <==> Common(g, a, b, y)
    ensures ReachedFrom(g, ParentsOf(g, common), x) <==> Dominated(g, a, b, x)
  {
    if ReachedFrom(g, ParentsOf(g, common), x) {
      var p :| p in ParentsOf(g, common) && Ancestor(g, x, p);
      var y :| y in common && p in Parents(g, y);
      AncestorParent(g, x, y, p);
    }
    if Dominated(g, a, b, x) {
      var y :| Common(g, a, b, y) && ProperAncestor(g, x, y);
      ProperViaParent(g, x, y);
      var p :| p in Parents(g, y) && Ancestor(g, x, p);
      assert p in ParentsOf(g, common);
    }
  }

  /** A worklist that marks before it pushes: everything marked is expanded or still waiting. */
  ghost predicate Marking(g: Graph, starts: set<string>, keep: set<string>, stack: seq<string>) {
    && starts <= keep
    && (forall x :: x in keep ==> ReachedFrom(g, starts, x))
    && (forall x :: x in stack ==> x in keep)
    && (forall x :: x in keep && x !in stack ==> Parents(g, x) <= keep)
  }

  lemma MarkedAll(g: Graph, starts: set<string>, keep: set<string>)
    requires Marking(g, starts, keep, [])
    ensures forall x :: x in keep <==> ReachedFrom(g, starts, x)
  {
    forall v, p | v in keep && p in Parents(g, v) ensures p in keep {
      assert Parents(g, v) <= keep;
    }
    forall x | ReachedFrom(g, starts, x) ensures x in keep {
      var s :| s in starts && Ancestor(g, x, s);
      var n: nat :| Climbs(g, s, x, n);
      ClosedUnderClimbs(g, keep, s, x, n);
    }
  }

  /** `sweepToRoots` and `prune` keep exactly the roots and their ancestors. */
  ghost predicate Kept(g: Graph, roots: set<string>, x: string) {
    ReachedFrom(g, roots - {""}, x)
  }

  ghost function Pruned(g: Graph, roots: set<string>): Graph {
    map v | v in g && Kept(g, roots, v) :: g[v]
  }

  /** The start is always expanded; any other version only when it is passable. */
  predicate Expands(g: Graph, bounds: Bounds, start: string, v: string) {
    v == start || Passable(g, bounds, v)
  }

  ghost predicate ClimbedBy(g: Graph, bounds: Bounds, start: string, v: string, depth: nat) {
    exists n: nat :: n <= depth && WithinDepth(bounds, n) && OpenClimb(g, bounds, start, v, n)
  }

  /** Everything within `depth` open steps was seen. */
  ghost predicate Complete(g: Graph, bounds: Bounds, start: string, depth: nat, seen: set<string>) {
    forall v, n: nat :: n <= depth && OpenClimb(g, bounds, start, v, n) ==> v in seen
  }

  /** The breadth-first state: `frontier` is the generation at `depth`, not yet expanded. */
  ghost predicate Generation(
    g: Graph, bounds: Bounds, start: string, depth: nat, seen: set<string>, frontier: set<string>)
  {
    && frontier <= seen && start in seen
    && (if depth == 0 then seen == frontier == {start} else start !in frontier)
    && (forall v :: v in frontier ==> OpenClimb(g, bounds, start, v, depth))
    && (forall v :: v in seen ==> ClimbedBy(g, bounds, start, v, depth))
    && Complete(g, bounds, start, depth, seen)
    && (forall v :: v in seen - frontier && Expands(g, bounds, start, v) ==> Parents(g, v) <= seen)
  }

  /** The parents one generation contributes. */
  function Spread(g: Graph, bounds: Bounds, start: string, frontier: set<string>): set<string> {
    set v, p | v in frontier && Expands(g, bounds, start, v) && p in Parents(g, v) :: p
  }

  lemma SpreadClimbs(
    g: Graph, bounds: Bounds, start: string, depth: nat, seen: set<string>, frontier: set<string>, p: string)
    requires Generation(g, bounds, start, depth, seen, frontier) && WithinDepth(bounds, depth + 1)
    requires p in Spread(g, bounds, start, frontier)
    ensures OpenClimb(g, bounds, start, p, depth + 1) && ClimbedBy(g, bounds, start, p, depth + 1)
  {
    var v :| v in frontier && Expands(g, bounds, start, v) && p in Parents(g, v);
    assert OpenClimb(g, bounds, start, v, depth);
    assert depth + 1 == 1 || Passable(g, bounds, v);
  }

  lemma SpreadCompletes(
    g: Graph, bounds: Bounds, start: string, depth: nat, seen: set<string>, frontier: set<string>, v: string, n: nat)
    requires Generation(g, bounds, start, depth, seen, frontier)
    requires n <= depth + 1 && OpenClimb(g, bounds, start, v, n)
    ensures v in seen + Spread(g, bounds, start, frontier)
  {
    if n == depth + 1 {
      var q :| OpenClimb(g, bounds, start, q, depth) && (n == 1 || Passable(g, bounds, q)) && v in Parents(g, q);
      assert q in seen && Expands(g, bounds, start, q);
      if q !in frontier {
        assert Parents(g, q) <= seen;
      }
    }
  }

  lemma GenerationStep(g: Graph, bounds: Bounds, start: string, depth: nat, seen: set<string>, frontier: set<string>)
    requires Generation(g, bounds, start, depth, seen, frontier) && WithinDepth(bounds, depth + 1)
    ensures var seen' := seen + Spread(g, bounds, start, frontier);
      Generation(g, bounds, start, depth + 1, seen', seen' - seen)
  {
    var seen' := seen + Spread(g, bounds, start, frontier);
    forall v | v in seen' - seen ensures OpenClimb(g, bounds, start, v, depth + 1) {
      SpreadClimbs(g, bounds, start, depth, seen, frontier, v);
    }
    forall v | v in seen' ensures ClimbedBy(g, bounds, start, v, depth + 1) {
      if v in seen {
        assert ClimbedBy(g, bounds, start, v, depth);
      } else {
        SpreadClimbs(g, bounds, start, depth, seen, frontier, v);
      }
    }
    forall v, n: nat | n <= depth + 1 && OpenClimb(g, bounds, start, v, n) ensures v in seen' {
      SpreadCompletes(g, bounds, start, depth, seen, frontier, v, n);
    }
    forall v | v in seen && Expands(g, bounds, start, v) ensures Parents(g, v) <= seen' {
      if v in frontier {
        assert forall p :: p in Parents(g, v) ==> p in Spread(g, bounds, start, frontier);
      }
    }
  }

  /** When the frontier runs dry, everything reachable was seen. */
  lemma {:induction false} DryFrontier(g: Graph, bounds: Bounds, start: string, depth: nat, seen: set<string>, v: string, n: nat)
    requires Generation(g, bounds, start, depth, seen, {}) && OpenClimb(g, bounds, start, v, n)
    ensures v in seen
    decreases n
  {
    if n > 0 {
      var q :| OpenClimb(g, bounds, start, q, n - 1) && (n == 1 || Passable(g, bounds, q)) && v in Parents(g, q);
      DryFrontier(g, bounds, start, depth, seen, q, n - 1);
      assert q in seen - {} && Expands(g, bounds, start, q);
    }
  }

  /** The distinct non-empty hashes of a set of versions. */
  function NodeHashes(g: Graph, vs: set<string>): set<string> {
    set v | v in vs && v in g && g[v].contentHash != "" :: g[v].contentHash
  }

  function SetOf(xs: seq<string>): set<string> {
    set x | x in xs
  }

  /** A generation at the depth limit contributes nothing. */
  function SpreadAt(g: Graph, bounds: Bounds, start: string, depth: nat, frontier: set<string>): set<string> {
    if bounds.maxDepth == Some(depth) then {} else Spread(g, bounds, start, frontier)
  }

  ghost predicate SeenAll(g: Graph, bounds: Bounds, start: string, seen: set<string>) {
    forall v :: v in seen <==> WalkedTo(g, bounds, start, v)
  }

  /** The loop's state: a generation still within the depth limit, or the finished walk. */
  ghost predicate Walking(
    g: Graph, bounds: Bounds, start: string, depth: nat, seen: set<string>, frontier: set<string>)
  {
    if WithinDepth(bounds, depth) then Generation(g, bounds, start, depth, seen, frontier)
    else frontier == {} && SeenAll(g, bounds, start, seen)
  }

  /** The loop's state with the hashes collected so far: those of every version already expanded. */
  ghost predicate Gathering(
    g: Graph, bounds: Bounds, start: string, depth: nat, seen: set<string>, frontier: set<string>, out: set<string>)
  {
    && Walking(g, bounds, start, depth, seen, frontier)
    && out == NodeHashes(g, seen - frontier) && seen <= Universe(g, {start})
  }

  lemma WalkStart(g: Graph, bounds: Bounds, start: string)
    ensures Walking(g, bounds, start, 0, {start}, {start}) && SetOf([start]) == {start}
    ensures NodeHashes(g, {start} - {start}) == {} && {start} <= Universe(g, {start})
  {
    assert OpenClimb(g, bounds, start, start, 0);
    assert ClimbedBy(g, bounds, start, start, 0);
  }

  lemma WalkStep(
    g: Graph, bounds: Bounds, start: string, depth: nat, seen: set<string>, frontier: set<string>, seen': set<string>)
    requires WithinDepth(bounds, depth) && Generation(g, bounds, start, depth, seen, frontier)
    requires seen' == seen + SpreadAt(g, bounds, start, depth, frontier)
    ensures Walking(g, bounds, start, depth + 1, seen', seen' - seen)
  {
    if bounds.maxDepth == Some(depth) {
      forall v ensures v in seen <==> WalkedTo(g, bounds, start, v) {
        if v in seen {
          assert ClimbedBy(g, bounds, start, v, depth);
        }
      }
    } else {
      GenerationStep(g, bounds, start, depth, seen, frontier);
    }
  }

  lemma CollectStep(
    g: Graph, bounds: Bounds, start: string, depth: nat, seen: set<string>, frontier: set<string>, seen': set<string>)
    requires WithinDepth(bounds, depth) && Walking(g, bounds, start, depth, seen, frontier) && seen <= Universe(g, {start})
    requires seen' == seen + SpreadAt(g, bounds, start, depth, frontier)
    ensures Gathering(g, bounds, start, depth + 1, seen', seen' - seen, NodeHashes(g, seen' - (seen' - seen)))
  {
    WalkStep(g, bounds, start, depth, seen, frontier, seen');
    SpreadInUniverse(g, bounds, start, frontier);
  }

  lemma WalkEnd(g: Graph, bounds: Bounds, start: string, depth: nat, seen: set<string>, frontier: set<string>)
    requires Walking(g, bounds, start, depth, seen, frontier)
    requires frontier == {} || !WithinDepth(bounds, depth)
    ensures frontier == {} && SeenAll(g, bounds, start, seen)
    ensures forall h :: h in NodeHashes(g, seen) <==> ReachesHash(g, bounds, start, h)
  {
    if WithinDepth(bounds, depth) {
      forall v ensures v in seen <==> WalkedTo(g, bounds, start, v) {
        if WalkedTo(g, bounds, start, v) {
          var n: nat :| WithinDepth(bounds, n) && OpenClimb(g, bounds, start, v, n);
          DryFrontier(g, bounds, start, depth, seen, v, n);
        }
        if v in seen {
          assert ClimbedBy(g, bounds, start, v, depth);
        }
      }
    }
  }

  lemma SetOfPush(xs: seq<string>, x: string)
    ensures SetOf(xs + [x]) == SetOf(xs) + {x}
  {
  }

  lemma SetOfPrefix(xs: seq<string>, k: nat)
    requires k < |xs|
    ensures SetOf(xs[..k + 1]) == SetOf(xs[..k]) + {xs[k]}
  {
    assert xs[..k + 1] == xs[..k] + [xs[k]];
  }

  lemma ParentsOfAdd(g: Graph, vs: set<string>, c: string)
    ensures ParentsOf(g, vs + {c}) == ParentsOf(g, vs) + Parents(g, c)
  {
  }

  lemma SpreadAdd(g: Graph, bounds: Bounds, start: string, vs: set<string>, c: string)
    ensures Spread(g, bounds, start, vs + {c}) ==
      Spread(g, bounds, start, vs) + if Expands(g, bounds, start, c) then Parents(g, c) else {}
  {
  }

  lemma HashesUnion(g: Graph, vs: set<string>, ws: set<string>)
    ensures NodeHashes(g, vs + ws) == NodeHashes(g, vs) + NodeHashes(g, ws)
  {
  }

  /** What one version contributes to the next generation at this depth. */
  function SpreadOf(g: Graph, cur: string, bounds: Bounds, depth: nat): set<string> {
    if bounds.maxDepth == Some(depth) || !(depth == 0 || Passable(g, bounds, cur)) then {} else Parents(g, cur)
  }

  lemma WalkedOne(g: Graph, bounds: Bounds, start: string, depth: nat, frontier: seq<string>, k: nat)
    requires k < |frontier| && (if depth == 0 then SetOf(frontier) == {start} else start !in SetOf(frontier))
    ensures NodeHashes(g, SetOf(frontier[..k + 1])) == NodeHashes(g, SetOf(frontier[..k])) + NodeHashes(g, {frontier[k]})
    ensures SpreadAt(g, bounds, start, depth, SetOf(frontier[..k + 1]))
         == SpreadAt(g, bounds, start, depth, SetOf(frontier[..k])) + SpreadOf(g, frontier[k], bounds, depth)
  {
    SetOfPrefix(frontier, k);
    HashesUnion(g, SetOf(frontier[..k]), {frontier[k]});
    SpreadAdd(g, bounds, start, SetOf(frontier[..k]), frontier[k]);
    assert frontier[k] in SetOf(frontier);
  }

  lemma GenerationWalked(
    g: Graph, bounds: Bounds, start: string, depth: nat, frontier: set<string>, seen0: set<string>)
    requires frontier <= seen0
    ensures var seen := seen0 + SpreadAt(g, bounds, start, depth, frontier);
      && NodeHashes(g, seen - (seen - seen0)) == NodeHashes(g, seen0 - frontier) + NodeHashes(g, frontier)
      && (seen0 <= Universe(g, {start}) ==> seen <= Universe(g, {start}))
  {
    var seen := seen0 + SpreadAt(g, bounds, start, depth, frontier);
    HashesUnion(g, seen0 - frontier, frontier);
    assert (seen0 - frontier) + frontier == seen0 == seen - (seen - seen0);
    SpreadInUniverse(g, bounds, start, frontier);
  }

  lemma SpreadInUniverse(g: Graph, bounds: Bounds, start: string, vs: set<string>)
    ensures Spread(g, bounds, start, vs) <= Universe(g, {start})
  {
  }

  lemma UpdateChanges<K, V>(m: map<K, V>, k: K, v: V)
    ensures m[k := v] == m <==> k in m && m[k] == v
  {
    if m[k := v] == m {
      assert k in m[k := v] && m[k := v][k] == v;
    }
  }

  // ------------------------------------------------------------------ the class

  class VersionDag {
    var nodes: Graph

    constructor ()
      ensures nodes == map[]
    {
      nodes := map[];
    }

    /** Records a version; true exactly when that changed the graph. */
    method AddVersionEdge(id: string, parents: seq<string>, contentHash: string, fileId: string) returns (changed: bool)
      modifies this
      ensures nodes == AddVersion(old(nodes), id, SetOf(parents), contentHash, fileId)
      ensures changed <==> nodes != old(nodes)
    {
      changed := false;
      var node;
      if id !in nodes {
        node := Node({}, contentHash, fileId);
        changed := true;
      } else {
        node := nodes[id];
        if node.contentHash == "" && contentHash != "" {
          node := node.(contentHash := contentHash);
          changed := true;
        }
        if node.fileId == "" && fileId != "" {
          node := node.(fileId := fileId);
          changed := true;
        }
      }
      var all, grew := AddParents(id, parents, node.parents);
      node := node.(parents := all);
      assert {} + (SetOf(parents) - {id}) == SetOf(parents) - {id};
      assert node == MergedNode(nodes, id, SetOf(parents), contentHash, fileId);
      UpdateChanges(nodes, id, node);
      nodes := nodes[id := node];
      changed := changed || grew;
    }

    /** The parent loop: a self-parent and a known parent are skipped. */
    method AddParents(id: string, parents: seq<string>, known: set<string>) returns (all: set<string>, grew: bool)
      ensures all == known + (SetOf(parents) - {id})
      ensures grew <==> all != known
    {
      all, grew := known, false;
      for k := 0 to |parents|
        invariant all == known + (SetOf(parents[..k]) - {id})
        invariant grew <==> all != known
      {
        SetOfPrefix(parents, k);
        if parents[k] != id && parents[k] !in all {
          all := all + {parents[k]};
          grew := true;
        }
      }
      assert parents[..|parents|] == parents;
    }

    method IsAncestor(maybeAncestor: string, descendant: string) returns (yes: bool)
      ensures yes <==> Ancestor(nodes, maybeAncestor, descendant)
    {
      if maybeAncestor == descendant {
        AncestorSelf(nodes, descendant);
        return true;
      }
      yes := Search(maybeAncestor, descendant);
      AncestorIsReached(nodes, maybeAncestor, descendant);
    }

    /** The upward walk, up to the version looked for. */
    method Search(target: string, descendant: string) returns (found: bool)
      requires target != descendant
      ensures found <==> ReachedFrom(nodes, {descendant}, target)
    {
      ghost var starts := {descendant};
      var seen: set<string>, stack := {}, [descendant];
      ExploreStart(nodes, starts, stack);
      found := false;
      while |stack| > 0 && !found
        invariant found ==> ReachedFrom(nodes, starts, target)
        invariant !found ==> Searching(nodes, starts, seen, stack, target)
        decreases Universe(nodes, starts) - seen, |stack|
      {
        var cur, rest := stack[|stack| - 1], stack[..|stack| - 1];
        SearchPops(nodes, starts, seen, stack, rest, cur, target);
        stack := rest;
        if cur !in seen {
          found, stack := PassParents(starts, seen, rest, cur, target);
          seen := seen + {cur};
        }
      }
      if !found {
        ExploredAll(nodes, starts, seen);
      }
    }

    /** The parents of a version not seen before, unless the one looked for is among them. */
    method PassParents(ghost starts: set<string>, ghost seen: set<string>, rest: seq<string>, cur: string, target: string)
      returns (found: bool, stack: seq<string>)
      requires Exploring(nodes, starts, seen, rest + [cur]) && cur !in seen && target !in seen + {cur} && target !in rest
      ensures found ==> ReachedFrom(nodes, starts, target)
      ensures !found ==> Searching(nodes, starts, seen + {cur}, stack, target)
      ensures Universe(nodes, starts) - (seen + {cur}) < Universe(nodes, starts) - seen
    {
      ExploringStays(nodes, starts, seen, rest + [cur]);
      assert cur in rest + [cur];
      found, stack := cur in nodes && target in nodes[cur].parents, rest;
      if found {
        ReachedParent(nodes, starts, cur, target);
        return;
      }
      if cur in nodes {
        stack := PushAll(rest, nodes[cur].parents);
      }
      ExploreStep(nodes, starts, seen, rest, cur, stack);
      assert cur in Universe(nodes, starts) - seen;
    }

    method Ancestors(v: string) returns (seen: set<string>)
      ensures forall x :: x in seen <==> Ancestor(nodes, x, v)
    {
      seen := Explore(nodes, {v}, [v]);
      assert forall x :: ReachedFrom(nodes, {v}, x) <==> Ancestor(nodes, x, v);
    }

    /** The lowest common ancestor by one dominance walk. */
    method MergeBase(a: string, b: string) returns (r: MergeBase)
      ensures r == MergeBaseOf(nodes, a, b)
    {
      var ancA := Ancestors(a);
      var ancB := Ancestors(b);
      var common := set x | x in ancA && x in ancB;
      assert forall x :: x in common <==> Common(nodes, a, b, x);
      if common == {} {
        return NoBase;
      }
      var stack := PushParents(common);
      var dominated := Explore(nodes, ParentsOf(nodes, common), stack);
      forall x ensures x in dominated <==> Dominated(nodes, a, b, x) {
        DominatedIsReached(nodes, a, b, common, x);
      }
      r := PickMaximal(a, b, common, dominated);
    }

    method PushParents(vs: set<string>) returns (stack: seq<string>)
      ensures forall x :: x in stack <==> x in ParentsOf(nodes, vs)
    {
      stack := [];
      var todo := vs;
      while todo != {}
        invariant todo <= vs
        invariant forall x :: x in stack <==> x in ParentsOf(nodes, vs - todo)
        decreases todo
      {
        var c :| c in todo;
        assert vs - (todo - {c}) == (vs - todo) + {c};
        ParentsOfAdd(nodes, vs - todo, c);
        if c in nodes {
          stack := PushAll(stack, nodes[c].parents);
        }
        todo := todo - {c};
      }
      assert vs - {} == vs;
    }

    /** The final count: one undominated common ancestor is the base, several are ambiguous. */
    method PickMaximal(a: string, b: string, common: set<string>, dominated: set<string>) returns (r: MergeBase)
      requires common != {}
      requires forall x :: x in common <==> Common(nodes, a, b, x)
      requires forall x :: x in dominated <==> Dominated(nodes, a, b, x)
      ensures r == MergeBaseOf(nodes, a, b)
    {
      var todo := common;
      var base, count := "", 0;
      while todo != {}
        invariant todo <= common
        invariant 0 <= count <= 1
        invariant count == 0 ==> forall x :: x in common && x !in todo ==> x in dominated
        invariant count == 1 ==> Maximal(nodes, a, b, base) && base !in todo
        invariant count == 1 ==> forall x :: x in common && x !in todo && x != base ==> x in dominated
        decreases todo
      {
        var c :| c in todo;
        todo := todo - {c};
        if c in dominated {
          continue;
        }
        assert Maximal(nodes, a, b, c);
        if count == 1 {
          return Multiple;
        }
        base, count := c, 1;
      }
      var some :| some in common;
      if count == 1 {
        MergeBaseIs(nodes, a, b, base);
        return BaseOf(base);
      }
      return Multiple;
    }

    method ReachableContentHashes(versionId: string, bounds: Bounds) returns (out: set<string>)
      ensures forall h :: h in out <==> ReachesHash(nodes, bounds, versionId, h)
    {
      out := {};
      var seen, frontier, depth := {versionId}, [versionId], 0;
      WalkStart(nodes, bounds, versionId);
      while |frontier| > 0 && WithinDepth(bounds, depth)
        invariant Gathering(nodes, bounds, versionId, depth, seen, SetOf(frontier), out)
        decreases Universe(nodes, {versionId}) - seen, |frontier|
      {
        frontier, seen, out := NextGeneration(versionId, bounds, depth, frontier, seen, out);
        depth := depth + 1;
      }
      WalkEnd(nodes, bounds, versionId, depth, seen, SetOf(frontier));
      assert seen - SetOf(frontier) == seen;
    }

    method NextGeneration(
      start: string, bounds: Bounds, depth: nat, frontier: seq<string>, seen0: set<string>, out0: set<string>)
      returns (next: seq<string>, seen: set<string>, out: set<string>)
      requires WithinDepth(bounds, depth) && Gathering(nodes, bounds, start, depth, seen0, SetOf(frontier), out0)
      ensures Gathering(nodes, bounds, start, depth + 1, seen, SetOf(next), out)
      ensures seen0 <= seen <= Universe(nodes, {start}) && (seen == seen0 ==> next == [])
    {
      next, seen, out := VisitGeneration(start, bounds, depth, frontier, seen0, out0);
      CollectStep(nodes, bounds, start, depth, seen0, SetOf(frontier), seen);
      assert |next| > 0 ==> next[0] in SetOf(next);
    }

    /** The body of the generation loop. */
    method VisitGeneration(
      start: string, bounds: Bounds, depth: nat, frontier: seq<string>, seen0: set<string>, out0: set<string>)
      returns (next: seq<string>, seen: set<string>, out: set<string>)
      requires SetOf(frontier) <= seen0
      requires if depth == 0 then SetOf(frontier) == {start} else start !in SetOf(frontier)
      ensures seen == seen0 + SpreadAt(nodes, bounds, start, depth, SetOf(frontier))
      ensures SetOf(next) == seen - seen0
      ensures out0 == NodeHashes(nodes, seen0 - SetOf(frontier)) ==> out == NodeHashes(nodes, seen - SetOf(next))
      ensures seen0 <= Universe(nodes, {start}) ==> seen <= Universe(nodes, {start})
    {
      next, seen, out := [], seen0, out0;
      for k := 0 to |frontier|
        invariant out == out0 + NodeHashes(nodes, SetOf(frontier[..k]))
        invariant seen == seen0 + SpreadAt(nodes, bounds, start, depth, SetOf(frontier[..k]))
        invariant SetOf(next) == seen - seen0
      {
        assert frontier[k] in SetOf(frontier);
        WalkedOne(nodes, bounds, start, depth, frontier, k);
        next, seen, out := VisitVersion(frontier[k], bounds, depth, next, seen, out);
      }
      assert frontier[..|frontier|] == frontier;
      GenerationWalked(nodes, bounds, start, depth, SetOf(frontier), seen0);
    }

    method VisitVersion(
      cur: string, bounds: Bounds, depth: nat, next0: seq<string>, seen0: set<string>, out0: set<string>)
      returns (next: seq<string>, seen: set<string>, out: set<string>)
      ensures seen == seen0 + SpreadOf(nodes, cur, bounds, depth)
      ensures SetOf(next) == SetOf(next0) + (SpreadOf(nodes, cur, bounds, depth) - seen0)
      ensures out == out0 + NodeHashes(nodes, {cur})
    {
      next, seen, out := next0, seen0, out0;
      if cur !in nodes {
        return;
      }
      var node := nodes[cur];
      if node.contentHash != "" {
        out := out + {node.contentHash};
      }
      if bounds.has.Some? && depth > 0 && node.contentHash != "" && !bounds.has.value(node.contentHash) {
        return;
      }
      if bounds.maxDepth == Some(depth) {
        return;
      }
      next, seen := PushUnseen(next, seen, node.parents);
    }

    method PushUnseen(next0: seq<string>, seen0: set<string>, parents: set<string>)
      returns (next: seq<string>, seen: set<string>)
      ensures seen == seen0 + parents
      ensures SetOf(next) == SetOf(next0) + (parents - seen0)
    {
      next, seen := next0, seen0;
      var todo := parents;
      while todo != {}
        invariant todo <= parents
        invariant seen == seen0 + (parents - todo)
        invariant SetOf(next) == SetOf(next0) + (parents - todo - seen0)
        decreases todo
      {
        var p :| p in todo;
        if p !in seen {
          SetOfPush(next, p);
          seen := seen + {p};
          next := next + [p];
        }
        todo := todo - {p};
      }
    }

    /** Mark from the roots upwards, then drop every node left unmarked. */
    method Prune(roots: set<string>) returns (dropped: nat)
      modifies this
      ensures nodes == Pruned(old(nodes), roots)
      ensures dropped == |old(nodes)| - |nodes|
    {
      var keep := Mark(roots);
      dropped := 0;
      ghost var before := nodes;
      var todo := nodes.Keys;
      while todo != {}
        invariant todo <= before.Keys
        invariant nodes == map v | v in before && (v in todo || v in keep) :: before[v]
        invariant dropped + |nodes| == |before|
        decreases todo
      {
        var id :| id in todo;
        todo := todo - {id};
        if id !in keep {
          assert nodes.Keys == (nodes - {id}).Keys + {id};
          nodes := nodes - {id};
          dropped := dropped + 1;
        }
      }
    }

    method Mark(roots: set<string>) returns (keep: set<string>)
      ensures forall x :: x in keep <==> Kept(nodes, roots, x)
    {
      var stack: seq<string>;
      keep, stack := {}, [];
      var todo := roots;
      while todo != {}
        invariant todo <= roots
        invariant keep == roots - todo - {""}
        invariant forall x :: x in stack <==> x in keep
        decreases todo
      {
        var r :| r in todo;
        todo := todo - {r};
        if r != "" && r !in keep {
          keep := keep + {r};
          stack := stack + [r];
        }
      }
      assert keep == roots - {""};
      keep := MarkUpwards(keep, stack);
    }

    /** The marking loop: a parent is marked before it is pushed, so it is pushed once. */
    method MarkUpwards(starts: set<string>, stack0: seq<string>) returns (keep: set<string>)
      requires forall x :: x in stack0 <==> x in starts
      ensures forall x :: x in keep <==> ReachedFrom(nodes, starts, x)
    {
      keep := starts;
      var stack := stack0;
      MarkStart(nodes, starts, stack);
      while |stack| > 0
        invariant Marking(nodes, starts, keep, stack)
        decreases Universe(nodes, starts) - keep, |stack|
      {
        ghost var keep0 := keep;
        keep, stack := MarkOne(starts, keep, stack);
        MarkingStays(nodes, starts, keep0, keep, stack);
      }
      MarkedAll(nodes, starts, keep);
    }

    method MarkOne(ghost starts: set<string>, keep0: set<string>, stack0: seq<string>)
      returns (keep: set<string>, stack: seq<string>)
      requires stack0 != [] && Marking(nodes, starts, keep0, stack0)
      ensures Marking(nodes, starts, keep, stack)
      ensures keep0 <= keep && (keep == keep0 ==> |stack| < |stack0|)
    {
      var cur, rest := stack0[|stack0| - 1], stack0[..|stack0| - 1];
      assert stack0 == rest + [cur];
      keep := keep0;
      var pushed: seq<string> := [];
      if cur in nodes {
        pushed, keep := PushUnseen([], keep0, nodes[cur].parents);
      }
      assert keep == keep0 + Parents(nodes, cur);
      assert SetOf(pushed) == Parents(nodes, cur) - keep0;
      MarkStep(nodes, starts, keep0, rest, cur, pushed);
      if pushed != [] {
        assert pushed[0] in SetOf(pushed);
      }
      stack := rest + pushed;
    }

    method SweepToRoots(roots: set<string>) returns (dropped: nat)
      modifies this
      ensures nodes == Swept(old(nodes), roots)
      ensures dropped == |old(nodes)| - |nodes|
    {
      if |nodes| == 0 || |roots| == 0 {
        return 0;
      }
      if !exists r :: r in roots && r in nodes {
        return 0;
      }
      dropped := Prune(roots);
    }

    method ChildSet() returns (hasChild: set<string>)
      ensures forall id :: id in hasChild <==> HasChild(nodes, id)
    {
      hasChild := {};
      var todo := nodes.Keys;
      while todo != {}
        invariant todo <= nodes.Keys
        invariant forall id :: id in hasChild <==> exists v :: v in nodes && v !in todo && id in nodes[v].parents
        decreases todo
      {
        var v :| v in todo;
        hasChild := hasChild + nodes[v].parents;
        todo := todo - {v};
      }
    }

    method Leaves(fileId: string) returns (out: seq<string>)
      ensures forall id :: id in out <==> Leaf(nodes, fileId, id)
      ensures forall i, j :: 0 <= i < j < |out| ==> out[i] != out[j]
    {
      var hasChild := ChildSet();
      out := [];
      var todo := nodes.Keys;
      while todo != {}
        invariant todo <= nodes.Keys
        invariant forall id :: id in out <==> Leaf(nodes, fileId, id) && id !in todo
        invariant forall i, j :: 0 <= i < j < |out| ==> out[i] != out[j]
        decreases todo
      {
        var id :| id in todo;
        todo := todo - {id};
        if nodes[id].fileId == fileId && id !in hasChild {
          out := out + [id];
        }
      }
    }

    /** One pass for every file: exactly the files with a leaf, each with its leaves. */
    method LeavesByFile() returns (out: map<string, seq<string>>)
      ensures "" !in out
      ensures forall f, id :: f != "" ==> (f in out && id in out[f] <==> Leaf(nodes, f, id))
      ensures forall f :: f in out ==> out[f] != []
      ensures forall f, i, j :: f in out && 0 <= i < j < |out[f]| ==> out[f][i] != out[f][j]
    {
      var hasChild := ChildSet();
      out := map[];
      var todo := nodes.Keys;
      while todo != {}
        invariant todo <= nodes.Keys
        invariant "" !in out
        invariant forall f, id :: f != "" ==> (f in out && id in out[f] <==> Leaf(nodes, f, id) && id !in todo)
        invariant forall f :: f in out ==> out[f] != []
        invariant forall f, i, j :: f in out && 0 <= i < j < |out[f]| ==> out[f][i] != out[f][j]
        decreases todo
      {
        var id :| id in todo;
        ghost var before := out;
        var f := nodes[id].fileId;
        if f != "" && id !in hasChild {
          assert f in out ==> id !in out[f];
          out := out[f := (if f in out then out[f] else []) + [id]];
        }
        todo := todo - {id};
      }
    }

    /** A copy that later changes to either graph do not reach. */
    method Clone() returns (copy: VersionDag)
      ensures fresh(copy) && copy.nodes == nodes
    {
      copy := new VersionDag();
      copy.nodes := nodes;
    }
  }

  function HashOf(g: Graph, v: string): Option<string> {
    if v in g && g[v].contentHash != "" then Some(g[v].contentHash) else None
  }

  /** What `sweepToRoots` leaves: it declines on an empty graph, no roots, or no root in the graph. */
  ghost function Swept(g: Graph, roots: set<string>): Graph {
    if g == map[] || roots == {} || !(exists r :: r in roots && r in g) then g else Pruned(g, roots)
  }

  lemma MarkStep(g: Graph, starts: set<string>, keep: set<string>, rest: seq<string>, cur: string, pushed: seq<string>)
    requires Marking(g, starts, keep, rest + [cur])
    requires SetOf(pushed) == Parents(g, cur) - keep
    ensures Marking(g, starts, keep + Parents(g, cur), rest + pushed)
  {
    assert cur in rest + [cur];
    var keep' := keep + Parents(g, cur);
    forall x | x in keep' ensures ReachedFrom(g, starts, x) {
      if x !in keep {
        ReachedParent(g, starts, cur, x);
      }
    }
    forall x | x in rest + pushed ensures x in keep' {
      if x in pushed {
        assert x in SetOf(pushed);
      } else {
        assert x in rest + [cur];
      }
    }
    assert forall x :: x in Parents(g, cur) - keep ==> x in pushed;
    forall x | x in keep' && x !in rest + pushed ensures Parents(g, x) <= keep' {
      if x in keep && x != cur {
        assert x !in rest + [cur];
      }
    }
  }

  lemma MarkStart(g: Graph, starts: set<string>, stack: seq<string>)
    requires forall x :: x in stack <==> x in starts
    ensures Marking(g, starts, starts, stack)
  {
    forall x | x in starts ensures ReachedFrom(g, starts, x) {
      AncestorSelf(g, x);
    }
  }

  /** The unmarked part of the graph shrinks whenever something was marked. */
  lemma MarkingStays(g: Graph, starts: set<string>, keep0: set<string>, keep: set<string>, stack: seq<string>)
    requires Marking(g, starts, keep, stack) && keep0 <= keep
    ensures keep == keep0 || Universe(g, starts) - keep < Universe(g, starts) - keep0
  {
    if keep != keep0 {
      var x :| x in keep && x !in keep0;
      ReachedInUniverse(g, starts, x);
      assert x in Universe(g, starts) - keep0;
    }
  }
}
