/** Persistence of the version graph: a snapshot, an append-only journal, and what a crash leaves. */
module VersionDagStore {
  import opened Base
  import opened Vault
  import opened VersionGraph
  import opened VersionGraphLaws

  /** The two files: `None` is an absent file; the journal is its parsed lines. */
  datatype Files = Files(snapshot: Option<Graph>, journal: Option<seq<Edge>>)

  function Snapshot(d: Files): Graph {
    if d.snapshot.Some? then d.snapshot.value else map[]
  }

  function Journal(d: Files): seq<Edge> {
    if d.journal.Some? then d.journal.value else []
  }

  /** The graph a reload of these files gives: the snapshot, then the journal replayed. */
  function Loaded(d: Files): Graph {
    AddAll(Snapshot(d), Journal(d))
  }

  /** No version lists itself as a parent, as `addVersion` guarantees. */
  ghost predicate NoSelfParent(g: Graph) {
    forall v :: v in g ==> v !in g[v].parents
  }

  lemma {:induction false} AddAllNoSelfParent(g: Graph, edges: seq<Edge>)
    requires NoSelfParent(g)
    ensures NoSelfParent(AddAll(g, edges))
    decreases |edges|
  {
    if edges != [] {
      AddAllNoSelfParent(AddEdge(g, edges[0]), edges[1..]);
    }
  }

  /** A move is no new content version, so it records no edge. */
  function EdgesOf(ops: seq<Op>): seq<Edge> {
    if ops == [] then []
    else
      (if ops[0].kind == Move then [] else [Edge(ops[0].id, ops[0].parents, ops[0].contentHash, ops[0].fileId)])
        + EdgesOf(ops[1..])
  }

  /** What a crash inside an append of `records` can leave: the whole lines written so far. */
  ghost predicate TornAppend(state: Files, before: Files, records: seq<Edge>) {
    exists k :: 0 <= k <= |records| && state == Files(before.snapshot, Some(Journal(before) + records[..k]))
  }

  const COMPACT_THRESHOLD: nat := 500

  class Store {
    var files: Files
    /** Every state the files went through, torn appends included: what a crash can leave. */
    ghost var history: seq<Files>

    constructor ()
      ensures files == Files(None, None) && history == []
    {
      files := Files(None, None);
      history := [];
    }

    method Load() returns (dag: VersionDag)
      requires NoSelfParent(Snapshot(files))
      ensures fresh(dag) && dag.nodes == Loaded(files)
    {
      dag := LoadSnapshot();
      var journal := Journal(files);
      assert journal[0..] == journal;
      for k := 0 to |journal|
        invariant AddAll(dag.nodes, journal[k..]) == Loaded(files)
      {
        var rec := journal[k];
        assert journal[k..][1..] == journal[k + 1..];
        var changed := dag.AddVersionEdge(rec.v, rec.p, rec.c, rec.f);
      }
      assert journal[|journal|..] == [];
    }

    /** `fromJSON`: the entries in whatever order the object yields them. */
    method LoadSnapshot() returns (dag: VersionDag)
      requires NoSelfParent(Snapshot(files))
      ensures fresh(dag) && dag.nodes == Snapshot(files)
    {
      dag := new VersionDag();
      var g := Snapshot(files);
      var todo := g.Keys;
      while todo != {}
        invariant todo <= g.Keys
        invariant dag.nodes == map v | v in g && v !in todo :: g[v]
        decreases todo
      {
        var id :| id in todo;
        var node := g[id];
        assert node.parents - {id} == node.parents;
        dag.nodes := AddVersion(dag.nodes, id, node.parents, node.contentHash, node.fileId);
        todo := todo - {id};
      }
    }

    /** One append; a crash can leave any whole-line prefix of it. */
    method AppendEdges(records: seq<Edge>)
      modifies this
      ensures files.snapshot == old(files.snapshot)
      ensures Journal(files) == old(Journal(files)) + records
      ensures old(history) <= history
      ensures forall i :: |old(history)| <= i < |history| ==> TornAppend(history[i], old(files), records)
    {
      if |records| == 0 {
        assert Journal(files) + records == Journal(files);
        return;
      }
      ghost var before := files;
      ghost var torn := seq(|records| + 1, k requires 0 <= k <= |records| =>
        Files(before.snapshot, Some(Journal(before) + records[..k])));
      forall k | 0 <= k < |torn| ensures TornAppend(torn[k], before, records) {
        assert torn[k] == Files(before.snapshot, Some(Journal(before) + records[..k]));
      }
      history := history + torn;
      files := files.(journal := Some(Journal(files) + records));
    }

    method ShouldCompact() returns (yes: bool)
      ensures yes <==> |Journal(files)| >= COMPACT_THRESHOLD
    {
      var journal := Journal(files);
      var lines := 0;
      for k := 0 to |journal|
        invariant lines == k < COMPACT_THRESHOLD
      {
        lines := lines + 1;
        if lines >= COMPACT_THRESHOLD {
          return true;
        }
      }
      return false;
    }

    /** Snapshot first, then the journal goes: both states load the graph that was snapshotted. */
    method Compact(dag: VersionDag)
      modifies this
      requires forall e :: e in Journal(files) ==> Holds(dag.nodes, e)
      ensures files == Files(Some(dag.nodes), None)
      ensures old(history) <= history
      ensures forall i :: |old(history)| <= i < |history| ==> Loaded(history[i]) == dag.nodes
      ensures forall i :: |old(history)| <= i < |history| ==> history[i].snapshot == Some(dag.nodes)
    {
      files := files.(snapshot := Some(dag.nodes));
      ReplayIsIdempotent(dag.nodes, Journal(files));
      history := history + [files];
      if files.journal.Some? {
        files := files.(journal := None);
        history := history + [files];
      }
    }
  }

  /** What every round keeps: the files load exactly the graph in memory. */
  ghost predicate Mirrored(files: Files, g: Graph) {
    NoSelfParent(Snapshot(files)) && Loaded(files) == g
  }

  /** The graph after some prefix of the round's edges: what a crash inside the round recovers. */
  ghost predicate RecoversPrefix(files: Files, g: Graph, edges: seq<Edge>) {
    NoSelfParent(Snapshot(files)) && exists k :: 0 <= k <= |edges| && Loaded(files) == AddAll(g, edges[..k])
  }

  /** `news` are the edges of `edges` that changed the graph when they were added in order. */
  ghost predicate ChangingEdges(g: Graph, edges: seq<Edge>, news: seq<Edge>)
    decreases |edges|
  {
    if edges == [] then news == []
    else if AddEdge(g, edges[0]) == g then ChangingEdges(g, edges[1..], news)
    else news != [] && news[0] == edges[0] && ChangingEdges(AddEdge(g, edges[0]), edges[1..], news[1..])
  }

  lemma {:induction false} ChangingAppend(g: Graph, edges: seq<Edge>, news: seq<Edge>, e: Edge)
    requires ChangingEdges(g, edges, news)
    ensures ChangingEdges(g, edges + [e], if AddEdge(AddAll(g, edges), e) == AddAll(g, edges) then news else news + [e])
    decreases |edges|
  {
    if edges == [] {
      assert [e][1..] == [];
    } else {
      assert (edges + [e])[1..] == edges[1..] + [e];
      if AddEdge(g, edges[0]) == g {
        ChangingAppend(g, edges[1..], news, e);
      } else {
        ChangingAppend(AddEdge(g, edges[0]), edges[1..], news[1..], e);
        assert (news + [e])[1..] == news[1..] + [e];
      }
    }
  }

  /** Replaying a prefix of the changing edges gives the graph after a prefix of all edges. */
  lemma {:induction false} ChangingPrefix(g: Graph, edges: seq<Edge>, news: seq<Edge>, k: nat) returns (j: nat)
    requires ChangingEdges(g, edges, news) && k <= |news|
    ensures j <= |edges| && AddAll(g, news[..k]) == AddAll(g, edges[..j])
    ensures k == |news| ==> AddAll(g, news) == AddAll(g, edges)
    decreases |edges|
  {
    if edges == [] {
      j := 0;
      assert news[..k] == edges[..0] == [];
    } else if AddEdge(g, edges[0]) == g {
      j := ChangingPrefix(g, edges[1..], news, k);
      assert edges[..j + 1][1..] == edges[1..][..j];
      j := j + 1;
    } else if k == 0 {
      j := 0;
      assert news[..0] == edges[..0] == [];
    } else {
      j := ChangingPrefix(AddEdge(g, edges[0]), edges[1..], news[1..], k - 1);
      assert news[..k][1..] == news[1..][..k - 1];
      assert edges[..j + 1][1..] == edges[1..][..j];
      j := j + 1;
    }
  }

  lemma {:induction false} EdgesOfPrefix(ops: seq<Op>, k: nat)
    requires k < |ops|
    ensures EdgesOf(ops[..k + 1]) == EdgesOf(ops[..k]) +
      if ops[k].kind == Move then [] else [Edge(ops[k].id, ops[k].parents, ops[k].contentHash, ops[k].fileId)]
  {
    if k == 0 {
      assert ops[..1][1..] == [] && ops[..0] == [];
    } else {
      EdgesOfPrefix(ops[1..], k - 1);
      assert ops[..k + 1][1..] == ops[1..][..k] && ops[..k][1..] == ops[1..][..k - 1];
    }
  }

  /** The loop of `recordVersionEdges`: add every edge, collect the ones that changed the graph. */
  method CollectEdges(ops: seq<Op>, dag: VersionDag) returns (newEdges: seq<Edge>)
    modifies dag
    ensures dag.nodes == AddAll(old(dag.nodes), EdgesOf(ops))
    ensures ChangingEdges(old(dag.nodes), EdgesOf(ops), newEdges)
  {
    newEdges := [];
    ghost var g := dag.nodes;
    for k := 0 to |ops|
      invariant dag.nodes == AddAll(g, EdgesOf(ops[..k]))
      invariant ChangingEdges(g, EdgesOf(ops[..k]), newEdges)
    {
      EdgesOfPrefix(ops, k);
      var op := ops[k];
      if op.kind == Move {
        assert EdgesOf(ops[..k]) + [] == EdgesOf(ops[..k]);
        continue;
      }
      var e := Edge(op.id, op.parents, op.contentHash, op.fileId);
      ChangingAppend(g, EdgesOf(ops[..k]), newEdges, e);
      AddAllAppend(g, EdgesOf(ops[..k]), [e]);
      assert [e][1..] == [];
      var changed := dag.AddVersionEdge(op.id, op.parents, op.contentHash, op.fileId);
      if changed {
        newEdges := newEdges + [e];
      }
    }
    assert ops[..|ops|] == ops;
  }

  /**
   * A round: afterwards the files load the graph in memory, which is the old graph with the round's
   * edges; and whatever disk call a crash hits, a reload gives the old graph with a prefix of them.
   */
  method RecordVersionEdges(ops: seq<Op>, dag: VersionDag, store: Store)
    requires Mirrored(store.files, dag.nodes)
    modifies dag, store
    ensures dag.nodes == AddAll(old(dag.nodes), EdgesOf(ops))
    ensures Mirrored(store.files, dag.nodes)
    ensures |Journal(store.files)| < COMPACT_THRESHOLD || store.files == old(store.files)
    ensures old(store.history) <= store.history
    ensures forall i :: |old(store.history)| <= i < |store.history| ==>
      RecoversPrefix(store.history[i], old(dag.nodes), EdgesOf(ops))
  {
    if |ops| == 0 {
      return;
    }
    ghost var g, files0, history0 := dag.nodes, store.files, store.history;
    AddAllNoSelfParent(Snapshot(files0), Journal(files0));
    AddAllNoSelfParent(g, EdgesOf(ops));
    var newEdges := CollectEdges(ops, dag);
    ghost var all := ChangingPrefix(g, EdgesOf(ops), newEdges, |newEdges|);
    if |newEdges| == 0 {
      return;
    }
    store.AppendEdges(newEdges);
    AddAllAppend(Snapshot(files0), Journal(files0), newEdges);
    assert Loaded(store.files) == dag.nodes;
    ghost var history1 := store.history;
    forall i | |history0| <= i < |history1| ensures RecoversPrefix(history1[i], g, EdgesOf(ops)) {
      var k :| 0 <= k <= |newEdges| && history1[i] == Files(files0.snapshot, Some(Journal(files0) + newEdges[..k]));
      AddAllAppend(Snapshot(files0), Journal(files0), newEdges[..k]);
      var j := ChangingPrefix(g, EdgesOf(ops), newEdges, k);
    }
    var full := store.ShouldCompact();
    if full {
      forall e | e in Journal(store.files) ensures Holds(dag.nodes, e) {
        AddAllKeeps(Snapshot(store.files), Journal(store.files), e);
      }
      store.Compact(dag);
      forall i | |history1| <= i < |store.history| ensures RecoversPrefix(store.history[i], g, EdgesOf(ops)) {
        assert EdgesOf(ops)[..|EdgesOf(ops)|] == EdgesOf(ops);
      }
    }
  }

  function Flatten(rounds: seq<seq<Op>>): seq<Edge> {
    if rounds == [] then [] else EdgesOf(rounds[0]) + Flatten(rounds[1..])
  }

  /** Any run of rounds from an empty device: each round loads what the last one left. */
  method RunRounds(rounds: seq<seq<Op>>) returns (store: Store, dag: VersionDag)
    ensures dag.nodes == AddAll(map[], Flatten(rounds))
    ensures Mirrored(store.files, dag.nodes) && |Journal(store.files)| < COMPACT_THRESHOLD
  {
    store := new Store();
    dag := new VersionDag();
    assert rounds[0..] == rounds;
    for k := 0 to |rounds|
      invariant fresh(store) && fresh(dag)
      invariant AddAll(dag.nodes, Flatten(rounds[k..])) == AddAll(map[], Flatten(rounds))
      invariant Mirrored(store.files, dag.nodes) && |Journal(store.files)| < COMPACT_THRESHOLD
    {
      assert rounds[k..][1..] == rounds[k + 1..];
      AddAllAppend(dag.nodes, EdgesOf(rounds[k]), Flatten(rounds[k + 1..]));
      dag := store.Load();
      RecordVersionEdges(rounds[k], dag, store);
    }
    assert rounds[|rounds|..] == [];
  }

  /** Replaying edges the full graph already holds leaves the retained part of a pruned one as it is. */
  lemma {:induction false} SweepCrashAgrees(g: Graph, h: Graph, roots: set<string>, journal: seq<Edge>)
    requires AgreeUp(g, h, Retained(g, roots))
    requires forall e :: e in journal ==> Holds(g, e)
    ensures AgreeUp(g, AddAll(h, journal), Retained(g, roots))
    decreases |journal|
  {
    if journal != [] {
      var e, u := journal[0], Retained(g, roots);
      assert Holds(g, e);
      if e.v in u {
        assert h[e.v] == g[e.v];
        HoldsIff(h, e);
      }
      assert AgreeUp(g, AddEdge(h, e), u);
      SweepCrashAgrees(g, AddEdge(h, e), roots, journal[1..]);
    }
  }

  /**
   * A crash between the snapshot write and the journal removal of a sweep's `save` replays old edges
   * over the pruned graph; every answer on retained versions is still that of the unswept graph.
   */
  lemma SweepCrashPreservesAnswers(
    g: Graph, roots: set<string>, journal: seq<Edge>, a: string, b: string, bounds: Bounds, hash: string)
    requires forall e :: e in journal ==> Holds(g, e)
    requires a in Retained(g, roots) && b in Retained(g, roots)
    ensures var recovered := Loaded(Files(Some(Pruned(g, roots)), Some(journal)));
      && (Ancestor(recovered, a, b) <==> Ancestor(g, a, b))
      && MergeBaseOf(recovered, a, b) == MergeBaseOf(g, a, b)
      && (ReachesHash(recovered, bounds, a, hash) <==> ReachesHash(g, bounds, a, hash))
      && HashOf(recovered, a) == HashOf(g, a)
  {
    var u := Retained(g, roots);
    SweptAgrees(g, roots);
    SweepCrashAgrees(g, Pruned(g, roots), roots, journal);
    SameAnswers(g, AddAll(Pruned(g, roots), journal), u, a, b, bounds, hash);
  }
}
