/** Laws of the version graph: the sweep keeps every answer, and the order of arrival is irrelevant. */
module VersionGraphLaws {
  import opened Base
  import opened VersionGraph

  /** One recorded edge: the arguments of an `addVersion` call. */
  datatype Edge = Edge(v: string, p: seq<string>, c: string, f: string)

  function AddEdge(g: Graph, e: Edge): Graph {
    AddVersion(g, e.v, SetOf(e.p), e.c, e.f)
  }

  function AddAll(g: Graph, edges: seq<Edge>): Graph
    decreases |edges|
  {
    if edges == [] then g else AddAll(AddEdge(g, edges[0]), edges[1..])
  }

  lemma {:induction false} AddAllAppend(g: Graph, xs: seq<Edge>, ys: seq<Edge>)
    ensures AddAll(g, xs + ys) == AddAll(AddAll(g, xs), ys)
    decreases |xs|
  {
    if xs == [] {
      assert xs + ys == ys;
    } else {
      assert (xs + ys)[1..] == xs[1..] + ys;
      AddAllAppend(AddEdge(g, xs[0]), xs[1..], ys);
    }
  }

  // ------------------------------------------- graphs that agree on an up-closed part

  /** `g` and `h` record the same nodes for every id in `u`, and `u` holds the parents of its ids. */
  ghost predicate AgreeUp(g: Graph, h: Graph, u: iset<string>) {
    && (forall v :: v in u ==> (v in g <==> v in h) && (v in g ==> g[v] == h[v]))
    && (forall v, p :: v in u && p in Parents(g, v) ==> p in u)
  }

  lemma {:induction false} ClimbsAgree(g: Graph, h: Graph, u: iset<string>, from: string, to: string, n: nat)
    requires AgreeUp(g, h, u) && from in u
    ensures Climbs(g, from, to, n) <==> Climbs(h, from, to, n)
    ensures Climbs(g, from, to, n) ==> to in u
    decreases n
  {
    if n > 0 {
      assert Parents(g, from) == Parents(h, from);
      forall p | p in Parents(g, from)
        ensures Climbs(g, p, to, n - 1) <==> Climbs(h, p, to, n - 1)
        ensures Climbs(g, p, to, n - 1) ==> to in u
      {
        ClimbsAgree(g, h, u, p, to, n - 1);
      }
    }
  }

  lemma AncestorAgrees(g: Graph, h: Graph, u: iset<string>, a: string, d: string)
    requires AgreeUp(g, h, u) && d in u
    ensures Ancestor(g, a, d) <==> Ancestor(h, a, d)
    ensures ProperAncestor(g, a, d) <==> ProperAncestor(h, a, d)
    ensures Ancestor(g, a, d) ==> a in u
  {
    forall n: nat
      ensures Climbs(g, d, a, n) <==> Climbs(h, d, a, n)
      ensures Climbs(g, d, a, n) ==> a in u
    {
      ClimbsAgree(g, h, u, d, a, n);
    }
  }

  lemma MaximalAgrees(g: Graph, h: Graph, u: iset<string>, a: string, b: string, x: string)
    requires AgreeUp(g, h, u) && a in u && b in u
    ensures Common(g, a, b, x) <==> Common(h, a, b, x)
    ensures Maximal(g, a, b, x) <==> Maximal(h, a, b, x)
  {
    forall y ensures Common(g, a, b, y) <==> Common(h, a, b, y) {
      AncestorAgrees(g, h, u, y, a);
      AncestorAgrees(g, h, u, y, b);
    }
    forall y | Common(g, a, b, y) ensures ProperAncestor(g, x, y) <==> ProperAncestor(h, x, y) {
      AncestorAgrees(g, h, u, y, a);
      AncestorAgrees(g, h, u, x, y);
    }
  }

  lemma MergeBaseAgrees(g: Graph, h: Graph, u: iset<string>, a: string, b: string)
    requires AgreeUp(g, h, u) && a in u && b in u
    ensures MergeBaseOf(g, a, b) == MergeBaseOf(h, a, b)
  {
    forall x
      ensures Common(g, a, b, x) <==> Common(h, a, b, x)
      ensures Maximal(g, a, b, x) <==> Maximal(h, a, b, x)
    {
      MaximalAgrees(g, h, u, a, b, x);
    }
    forall x ensures OnlyMaximal(g, a, b, x) <==> OnlyMaximal(h, a, b, x) {
    }
    if x :| OnlyMaximal(g, a, b, x) {
      MergeBaseIs(g, a, b, x);
      MergeBaseIs(h, a, b, x);
    }
  }

  lemma {:induction false} OpenClimbAgrees(g: Graph, h: Graph, u: iset<string>, bounds: Bounds, start: string, v: string, n: nat)
    requires AgreeUp(g, h, u) && start in u
    requires OpenClimb(g, bounds, start, v, n)
    ensures OpenClimb(h, bounds, start, v, n) && v in u
    decreases n
  {
    if n > 0 {
      var q :| OpenClimb(g, bounds, start, q, n - 1) && (n == 1 || Passable(g, bounds, q)) && v in Parents(g, q);
      OpenClimbAgrees(g, h, u, bounds, start, q, n - 1);
      assert v in Parents(h, q);
    }
  }

  lemma ReachesAgrees(g: Graph, h: Graph, u: iset<string>, bounds: Bounds, start: string, hash: string)
    requires AgreeUp(g, h, u) && start in u
    requires ReachesHash(g, bounds, start, hash)
    ensures ReachesHash(h, bounds, start, hash)
  {
    var v :| v in g && WalkedTo(g, bounds, start, v) && g[v].contentHash == hash;
    var n: nat :| WithinDepth(bounds, n) && OpenClimb(g, bounds, start, v, n);
    OpenClimbAgrees(g, h, u, bounds, start, v, n);
    assert WalkedTo(h, bounds, start, v);
  }

  lemma AgreeUpSymmetric(g: Graph, h: Graph, u: iset<string>)
    requires AgreeUp(g, h, u)
    ensures AgreeUp(h, g, u)
  {
    forall v, p | v in u && p in Parents(h, v) ensures p in u {
      assert Parents(g, v) == Parents(h, v);
    }
  }

  /** Graphs that agree on an up-closed part answer every question about it alike. */
  lemma SameAnswers(g: Graph, h: Graph, u: iset<string>, a: string, b: string, bounds: Bounds, hash: string)
    requires AgreeUp(g, h, u) && a in u && b in u
    ensures Ancestor(h, a, b) <==> Ancestor(g, a, b)
    ensures MergeBaseOf(h, a, b) == MergeBaseOf(g, a, b)
    ensures ReachesHash(h, bounds, a, hash) <==> ReachesHash(g, bounds, a, hash)
    ensures HashOf(h, a) == HashOf(g, a)
  {
    AncestorAgrees(g, h, u, a, b);
    MergeBaseAgrees(g, h, u, a, b);
    AgreeUpSymmetric(g, h, u);
    if ReachesHash(g, bounds, a, hash) {
      ReachesAgrees(g, h, u, bounds, a, hash);
    }
    if ReachesHash(h, bounds, a, hash) {
      ReachesAgrees(h, g, u, bounds, a, hash);
    }
  }

  // ---------------------------------------------------------------------- the sweep

  /** The ids a sweep to `roots` does not take away. */
  ghost function Retained(g: Graph, roots: set<string>): iset<string> {
    iset v | v !in g || Kept(g, roots, v)
  }

  /** In a batch, retained and new versions name only retained or new parents; swept ids may be recorded again. */
  ghost predicate NamesRetained(g: Graph, roots: set<string>, batch: seq<Edge>) {
    forall e, p :: e in batch && e.v in Retained(g, roots) && p in e.p ==> p in Retained(g, roots)
  }

  lemma SweptAgrees(g: Graph, roots: set<string>)
    ensures AgreeUp(g, Swept(g, roots), Retained(g, roots))
    ensures AgreeUp(g, Pruned(g, roots), Retained(g, roots))
  {
    var u := Retained(g, roots);
    forall v, p | v in u && p in Parents(g, v) ensures p in u {
      ReachedParent(g, roots - {""}, v, p);
    }
  }

  lemma {:induction false} BatchAgrees(g: Graph, h: Graph, u: iset<string>, batch: seq<Edge>)
    requires AgreeUp(g, h, u)
    requires forall e, p :: e in batch && e.v in u && p in e.p ==> p in u
    ensures AgreeUp(AddAll(g, batch), AddAll(h, batch), u)
    decreases |batch|
  {
    if batch != [] {
      var e := batch[0];
      assert e in batch;
      var g', h' := AddEdge(g, e), AddEdge(h, e);
      forall v, p | v in u && p in Parents(g', v) ensures p in u {
        if v == e.v && p !in Parents(g, v) {
          assert p in e.p;
        }
      }
      assert forall x :: x in batch[1..] ==> x in batch;
      BatchAgrees(g', h', u, batch[1..]);
    }
  }

  /**
   * The sweep changes no answer: on retained versions, ancestry, merge bases and reachable hashes
   * are those of the unswept graph, before and after adding any batch of versions whose parents are
   * retained or new, and whatever is recorded again for a swept id. Bounds are arbitrary.
   */
  lemma SweepPreservesAnswers(
    g: Graph, roots: set<string>, batch: seq<Edge>, a: string, b: string, bounds: Bounds, hash: string)
    requires NamesRetained(g, roots, batch) && a in Retained(g, roots) && b in Retained(g, roots)
    ensures var full, swept := AddAll(g, batch), AddAll(Swept(g, roots), batch);
      && (Ancestor(swept, a, b) <==> Ancestor(full, a, b))
      && MergeBaseOf(swept, a, b) == MergeBaseOf(full, a, b)
      && (ReachesHash(swept, bounds, a, hash) <==> ReachesHash(full, bounds, a, hash))
      && HashOf(swept, a) == HashOf(full, a)
  {
    var u := Retained(g, roots);
    var full, swept := AddAll(g, batch), AddAll(Swept(g, roots), batch);
    SweptAgrees(g, roots);
    BatchAgrees(g, Swept(g, roots), u, batch);
    SameAnswers(full, swept, u, a, b, bounds, hash);
  }

  /** A kept version that is no root is kept because of a kept child. */
  lemma KeptChild(g: Graph, roots: set<string>, id: string)
    requires Kept(g, roots, id) && id !in roots
    ensures HasChild(Pruned(g, roots), id)
  {
    var s :| s in roots - {""} && Ancestor(g, id, s);
    AncestorIsSelfOrProper(g, id, s);
    var n: nat :| n > 0 && Climbs(g, s, id, n);
    var q := LastStep(g, s, id, n);
    assert Ancestor(g, q, s);
    assert q in Pruned(g, roots) && id in Pruned(g, roots)[q].parents;
  }

  /** A leaf after the sweep was a leaf before, or it is a root. */
  lemma LeafAfterSweep(g: Graph, roots: set<string>, fileId: string, id: string)
    requires Leaf(Pruned(g, roots), fileId, id)
    ensures Leaf(g, fileId, id) || id in roots
  {
    if id !in roots {
      KeptChild(g, roots, id);
    }
  }

  /**
   * A sweep makes a version a leaf that was none exactly when it is kept, had children, and every
   * child was swept. (The comment on `prune` says this never happens; see the next lemma.)
   */
  lemma NewLeafIff(g: Graph, roots: set<string>, id: string)
    requires id in g
    ensures Leaf(Pruned(g, roots), g[id].fileId, id) && !Leaf(g, g[id].fileId, id) <==>
      && Kept(g, roots, id)
      && HasChild(g, id)
      && forall v :: v in g && id in g[v].parents ==> !Kept(g, roots, v)
  {
    var h := Pruned(g, roots);
    assert forall v :: v in h <==> v in g && Kept(g, roots, v);
    assert forall v :: v in h ==> h[v] == g[v];
  }

  /** A root whose only child is swept becomes a new leaf. */
  lemma SweepCanMakeALeaf()
    ensures var g := map["r" := Node({}, "h", "f"), "c" := Node({"r"}, "k", "f")];
      Leaf(Pruned(g, {"r"}), "f", "r") && !Leaf(g, "f", "r")
  {
    var g := map["r" := Node({}, "h", "f"), "c" := Node({"r"}, "k", "f")];
    assert "r"[0] != "c"[0];
    assert g["c"].parents == {"r"};
    assert HasChild(g, "r");
    AncestorSelf(g, "r");
    assert Kept(g, {"r"}, "r");
    forall x | Ancestor(g, x, "r") ensures x == "r" {
      AncestorIsSelfOrProper(g, x, "r");
      if ProperAncestor(g, x, "r") {
        ProperViaParent(g, x, "r");
      }
    }
    assert !Kept(g, {"r"}, "c");
    NewLeafIff(g, {"r"}, "r");
  }

  // ---------------------------------------------------------------------- convergence

  /** Each version id carries one content hash and one file; an empty field says nothing. */
  ghost predicate OneVersionPerId(edges: set<Edge>) {
    forall e, d :: e in edges && d in edges && e.v == d.v ==>
      (e.c == "" || d.c == "" || e.c == d.c) && (e.f == "" || d.f == "" || e.f == d.f)
  }

  function ParentsIn(edges: set<Edge>, v: string): set<string> {
    set e, p | e in edges && p in SetOf(e.p) && e.v == v && p != v :: p
  }

  /** `value` is what the edges of `v` say about a field: the one non-empty value, if there is one. */
  ghost predicate Agreed(edges: set<Edge>, v: string, value: string, field: Edge -> string) {
    && (forall e :: e in edges && e.v == v && field(e) != "" ==> value == field(e))
    && (value != "" ==> exists e :: e in edges && e.v == v && field(e) == value)
  }

  ghost const HashField: Edge -> string := (e: Edge) => e.c
  ghost const FileField: Edge -> string := (e: Edge) => e.f

  /** The graph that a set of edges determines, in whatever order and however often they arrive. */
  ghost predicate Represents(g: Graph, edges: set<Edge>) {
    && g.Keys == (set e | e in edges :: e.v)
    && (forall v :: v in g ==> g[v].parents == ParentsIn(edges, v))
    && (forall v :: v in g ==> Agreed(edges, v, g[v].contentHash, HashField))
    && (forall v :: v in g ==> Agreed(edges, v, g[v].fileId, FileField))
  }

  lemma AgreedUnique(edges: set<Edge>, v: string, x: string, y: string, field: Edge -> string)
    requires Agreed(edges, v, x, field) && Agreed(edges, v, y, field)
    ensures x == y
  {
  }

  lemma RepresentsUnique(g: Graph, h: Graph, edges: set<Edge>)
    requires Represents(g, edges) && Represents(h, edges)
    ensures g == h
  {
    forall v | v in g ensures g[v] == h[v] {
      AgreedUnique(edges, v, g[v].contentHash, h[v].contentHash, HashField);
      AgreedUnique(edges, v, g[v].fileId, h[v].fileId, FileField);
    }
  }

  lemma AgreedStep(
    edges: set<Edge>, e: Edge, v: string, known: bool, value: string, next: string, field: Edge -> string)
    requires if known then Agreed(edges, v, value, field) else forall d :: d in edges ==> d.v != v
    requires next == if e.v != v then value else if !known || value == "" then field(e) else value
    requires e.v != v ==> known
    requires forall d :: d in edges && d.v == e.v ==> field(d) == "" || field(e) == "" || field(d) == field(e)
    ensures Agreed(edges + {e}, v, next, field)
  {
    if e.v == v && known && value != "" {
      var d :| d in edges && d.v == v && field(d) == value;
      assert d in edges + {e};
    }
  }

  lemma RepresentsStep(g: Graph, edges: set<Edge>, e: Edge)
    requires Represents(g, edges) && OneVersionPerId(edges + {e})
    ensures Represents(AddEdge(g, e), edges + {e})
  {
    var h := AddEdge(g, e);
    assert forall d :: d in edges ==> d in edges + {e};
    assert e in edges + {e};
    forall v | v in h ensures h[v].parents == ParentsIn(edges + {e}, v) {
      ParentsStep(g, edges, e, v);
    }
    forall v | v in h
      ensures Agreed(edges + {e}, v, h[v].contentHash, HashField)
      ensures Agreed(edges + {e}, v, h[v].fileId, FileField)
    {
      var known := v in g;
      AgreedStep(edges, e, v, known, if known then g[v].contentHash else "", h[v].contentHash, HashField);
      AgreedStep(edges, e, v, known, if known then g[v].fileId else "", h[v].fileId, FileField);
    }
  }

  lemma ParentsStep(g: Graph, edges: set<Edge>, e: Edge, v: string)
    requires Represents(g, edges) && v in AddEdge(g, e)
    ensures AddEdge(g, e)[v].parents == ParentsIn(edges + {e}, v)
  {
    assert ParentsIn(edges + {e}, v) == ParentsIn(edges, v) + if e.v == v then SetOf(e.p) - {v} else {};
    if v !in g {
      assert ParentsIn(edges, v) == {};
    }
  }

  function EdgeSet(edges: seq<Edge>): set<Edge> {
    set e | e in edges
  }

  lemma {:induction false} AddAllRepresents(g: Graph, seen: set<Edge>, edges: seq<Edge>)
    requires Represents(g, seen) && OneVersionPerId(seen + EdgeSet(edges))
    ensures Represents(AddAll(g, edges), seen + EdgeSet(edges))
    decreases |edges|
  {
    if edges == [] {
      assert seen + EdgeSet(edges) == seen;
    } else {
      assert EdgeSet(edges) == {edges[0]} + EdgeSet(edges[1..]);
      assert seen + EdgeSet(edges) == (seen + {edges[0]}) + EdgeSet(edges[1..]);
      RepresentsStep(g, seen, edges[0]);
      AddAllRepresents(AddEdge(g, edges[0]), seen + {edges[0]}, edges[1..]);
    }
  }

  /**
   * Convergence: when each version id carries one hash and one file, two devices that received the
   * same edges hold the same graph, whatever the order and the repetitions.
   */
  lemma SameEdgesSameGraph(xs: seq<Edge>, ys: seq<Edge>)
    requires EdgeSet(xs) == EdgeSet(ys) && OneVersionPerId(EdgeSet(xs))
    ensures AddAll(map[], xs) == AddAll(map[], ys)
  {
    assert Represents(map[], {});
    assert {} + EdgeSet(xs) == EdgeSet(xs);
    AddAllRepresents(map[], {}, xs);
    AddAllRepresents(map[], {}, ys);
    RepresentsUnique(AddAll(map[], xs), AddAll(map[], ys), EdgeSet(xs));
  }

  // ------------------------------------------------------------- edges a graph already holds

  /** Re-recording `e` would change nothing. */
  predicate Holds(g: Graph, e: Edge) {
    && e.v in g && SetOf(e.p) - {e.v} <= g[e.v].parents
    && (e.c == "" || g[e.v].contentHash != "") && (e.f == "" || g[e.v].fileId != "")
  }

  lemma HoldsIff(g: Graph, e: Edge)
    ensures Holds(g, e) <==> AddEdge(g, e) == g
  {
    UpdateChanges(g, e.v, MergedNode(g, e.v, SetOf(e.p), e.c, e.f));
    if e.v in g {
      var known, extra := g[e.v].parents, SetOf(e.p) - {e.v};
      assert extra <= known <==> known + extra == known;
    }
  }

  lemma HoldsAfter(g: Graph, e: Edge, d: Edge)
    ensures Holds(AddEdge(g, e), e)
    ensures Holds(g, d) ==> Holds(AddEdge(g, e), d)
  {
  }

  lemma {:induction false} AddAllKeeps(g: Graph, edges: seq<Edge>, d: Edge)
    requires Holds(g, d) || d in edges
    ensures Holds(AddAll(g, edges), d)
    decreases |edges|
  {
    if edges != [] {
      HoldsAfter(g, edges[0], d);
      AddAllKeeps(AddEdge(g, edges[0]), edges[1..], d);
    }
  }

  /** Replaying edges a graph already holds, in any order, leaves it as it is. */
  lemma {:induction false} ReplayIsIdempotent(g: Graph, edges: seq<Edge>)
    requires forall e :: e in edges ==> Holds(g, e)
    ensures AddAll(g, edges) == g
    decreases |edges|
  {
    if edges != [] {
      HoldsIff(g, edges[0]);
      ReplayIsIdempotent(g, edges[1..]);
    }
  }
}
