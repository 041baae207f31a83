/** The keep-set of the content collector: what the registry and the version graph still name. */
module KeepSet {
  import opened Base
  import opened Vault
  import opened VersionGraph
  import opened VersionGraphLaws
  import opened PackDisk
  import PS = PackState
  import opened PackStore
  import RegistryDisk

  // -------------------------------------------------------------------- keep-set

  /** A live entry's content, or a hash its head reaches within the bounds. */
  ghost predicate KeptFor(e: FileEntry, g: Option<Graph>, bounds: Bounds, hash: string) {
    && !e.deleted
    && ((hash == e.contentHash && hash != "")
        || (g.Some? && Head(e).Some? && ReachesHash(g.value, bounds, Head(e).value, hash)))
  }

  ghost predicate Referenced(entries: RegistryDisk.Entries, g: Option<Graph>, bounds: Bounds, hash: string) {
    exists id :: id in entries && KeptFor(entries[id], g, bounds, hash)
  }

  /** The keep-set, entry by entry. */
  method ReferencedHashes(entries: RegistryDisk.Entries, dag: VersionDag?, bounds: Bounds) returns (keep: set<string>)
    ensures forall h :: h in keep <==> Referenced(entries, if dag == null then None else Some(dag.nodes), bounds, h)
  {
    keep := {};
    var todo := entries.Keys;
    ghost var g := if dag == null then None else Some(dag.nodes);
    while todo != {}
      invariant todo <= entries.Keys
      invariant forall h :: h in keep <==> exists id :: id in entries && id !in todo && KeptFor(entries[id], g, bounds, h)
      decreases todo
    {
      var id :| id in todo;
      var more := KeptOf(entries[id], dag, bounds);
      forall h
        ensures h in keep + more <==> exists x :: x in entries && x !in todo - {id} && KeptFor(entries[x], g, bounds, h)
      {
        if h in more {
          assert KeptFor(entries[id], g, bounds, h);
        }
      }
      keep, todo := keep + more, todo - {id};
    }
  }

  method KeptOf(e: FileEntry, dag: VersionDag?, bounds: Bounds) returns (keep: set<string>)
    ensures forall h :: h in keep <==> KeptFor(e, if dag == null then None else Some(dag.nodes), bounds, h)
  {
    keep := {};
    if e.deleted {
      return;
    }
    if e.contentHash != "" {
      keep := keep + {e.contentHash};
    }
    if dag != null && Head(e).Some? {
      var reached := dag.ReachableContentHashes(Head(e).value, bounds);
      keep := keep + reached;
    }
  }

  /** Every version an entry names: its head, and the open heads of a conflict. */
  function NamedBy(e: FileEntry): set<string> {
    (if Head(e).Some? then {Head(e).value} else {})
    + if e.conflictParents.Some? then set p | p in e.conflictParents.value && p != "" else {}
  }

  /** The roots of the sweep: tombstones' heads too. */
  method VersionRoots(entries: RegistryDisk.Entries) returns (roots: set<string>)
    ensures forall v :: v in roots <==> exists id :: id in entries && v in NamedBy(entries[id])
  {
    roots := {};
    var todo := entries.Keys;
    while todo != {}
      invariant todo <= entries.Keys
      invariant forall v :: v in roots <==> exists id :: id in entries && id !in todo && v in NamedBy(entries[id])
      decreases todo
    {
      var id :| id in todo;
      todo, roots := todo - {id}, roots + NamedBy(entries[id]);
    }
  }

  // ------------------------------------------------------------- without a gap

  /** A path from a version up through its ancestors; those strictly between have held bytes, or name none. */
  ghost predicate GapFree(g: Graph, stored: set<string>, path: seq<string>) {
    && path != []
    && (forall i :: 0 <= i < |path| - 1 ==> path[i + 1] in Parents(g, path[i]))
    && (forall i :: 0 < i < |path| - 1 ==> path[i] in g && (g[path[i]].contentHash == "" || g[path[i]].contentHash in stored))
  }

  function HeldWithin(stored: set<string>, depth: Option<nat>): Bounds {
    Bounds(Some(h => h in stored), depth)
  }

  function HeldBy(stored: set<string>): Bounds {
    HeldWithin(stored, None)
  }

  /** The bounded walk reaches the end of every gap-free path. */
  lemma {:induction false} GapFreeIsOpen(g: Graph, stored: set<string>, depth: Option<nat>, path: seq<string>)
    requires GapFree(g, stored, path)
    ensures OpenClimb(g, HeldWithin(stored, depth), path[0], path[|path| - 1], |path| - 1)
    decreases |path|
  {
    var n := |path| - 1;
    if n > 0 {
      var init := path[..n];
      GapFreeIsOpen(g, stored, depth, init);
      assert init[|init| - 1] == path[n - 1] && init[0] == path[0];
      assert path[n] in Parents(g, path[n - 1]);
      assert n == 1 || Passable(g, HeldWithin(stored, depth), path[n - 1]);
    }
  }

  /** And nothing else: what it visits lies at the end of such a path. */
  lemma {:induction false} OpenIsGapFree(g: Graph, stored: set<string>, depth: Option<nat>, start: string, v: string, n: nat)
    returns (path: seq<string>)
    requires OpenClimb(g, HeldWithin(stored, depth), start, v, n)
    ensures GapFree(g, stored, path) && |path| == n + 1 && path[0] == start && path[n] == v
    decreases n
  {
    if n == 0 {
      path := [start];
    } else {
      var bounds := HeldWithin(stored, depth);
      var q :| OpenClimb(g, bounds, start, q, n - 1) && (n == 1 || Passable(g, bounds, q)) && v in Parents(g, q);
      var init := OpenIsGapFree(g, stored, depth, start, q, n - 1);
      path := init + [v];
      forall i | 0 < i < |path| - 1
        ensures path[i] in g && (g[path[i]].contentHash == "" || g[path[i]].contentHash in stored)
      {
        assert path[i] == init[i];
      }
    }
  }

  /** The content of a version that a live head reaches without a gap, or of a live entry. */
  ghost predicate Needed(entries: RegistryDisk.Entries, g: Graph, stored: set<string>, hash: string) {
    hash != "" && exists id :: id in entries && NeededFor(entries[id], g, stored, hash)
  }

  ghost predicate NeededFor(e: FileEntry, g: Graph, stored: set<string>, hash: string) {
    && !e.deleted
    && (hash == e.contentHash
        || (Head(e).Some? && exists path :: EndsAt(g, stored, path, Head(e).value, hash)))
  }

  ghost predicate EndsAt(g: Graph, stored: set<string>, path: seq<string>, head: string, hash: string) {
    && GapFree(g, stored, path) && path[0] == head
    && path[|path| - 1] in g && g[path[|path| - 1]].contentHash == hash
  }

  /** The keep-set with the store's own holdings as the bound is exactly what is needed. */
  lemma ReferencedIsNeeded(entries: RegistryDisk.Entries, g: Graph, stored: set<string>, hash: string)
    ensures Referenced(entries, Some(g), HeldBy(stored), hash) <==> Needed(entries, g, stored, hash)
  {
    forall id | id in entries
      ensures KeptFor(entries[id], Some(g), HeldBy(stored), hash) <==> hash != "" && NeededFor(entries[id], g, stored, hash)
    {
      if Head(entries[id]).Some? {
        ReachesIffPath(g, stored, None, Head(entries[id]).value, hash);
      }
    }
  }

  /** A hash is reached exactly over a gap-free path that takes no more steps up than the depth. */
  lemma ReachesIffPath(g: Graph, stored: set<string>, depth: Option<nat>, head: string, hash: string)
    ensures ReachesHash(g, HeldWithin(stored, depth), head, hash) <==>
      hash != "" && exists path :: EndsAt(g, stored, path, head, hash) && (depth.Some? ==> |path| - 1 <= depth.value)
  {
    var bounds := HeldWithin(stored, depth);
    if ReachesHash(g, bounds, head, hash) {
      var v :| v in g && WalkedTo(g, bounds, head, v) && g[v].contentHash == hash;
      var n: nat :| WithinDepth(bounds, n) && OpenClimb(g, bounds, head, v, n);
      var path := OpenIsGapFree(g, stored, depth, head, v, n);
      assert EndsAt(g, stored, path, head, hash);
    }
    if hash != "" && exists path :: EndsAt(g, stored, path, head, hash) && (depth.Some? ==> |path| - 1 <= depth.value) {
      var path :| EndsAt(g, stored, path, head, hash) && (depth.Some? ==> |path| - 1 <= depth.value);
      GapFreeIsOpen(g, stored, depth, path);
      var n: nat := |path| - 1;
      assert WithinDepth(bounds, n);
      assert WalkedTo(g, bounds, head, path[n]);
    }
  }

  // ------------------------------------------------------------- the collection

  /** Every needed hash a store could read through its index `m` reads from `x` after a reload. */
  ghost predicate KeepsNeeded(
    c: Codec, d: Disk, m: Index, x: Disk, entries: RegistryDisk.Entries, g: Graph, stored: set<string>)
  {
    forall h :: Needed(entries, g, stored, h) && ReadVia(c, d, m, h).Some? ==> Reads(c, x, h).Some?
  }

  /** Sweeping to roots that hold every live head leaves what those heads reach. */
  lemma SweepKeepsReferenced(entries: RegistryDisk.Entries, g: Graph, roots: set<string>, stored: set<string>, hash: string)
    requires forall id :: id in entries && Head(entries[id]).Some? ==> Head(entries[id]).value in roots
    ensures Referenced(entries, Some(Swept(g, roots)), HeldBy(stored), hash) <==>
      Referenced(entries, Some(g), HeldBy(stored), hash)
  {
    forall id | id in entries
      ensures KeptFor(entries[id], Some(Swept(g, roots)), HeldBy(stored), hash) <==> KeptFor(entries[id], Some(g), HeldBy(stored), hash)
    {
      if Head(entries[id]).Some? {
        var head := Head(entries[id]).value;
        RootIsRetained(g, roots, head);
        SweepPreservesAnswers(g, roots, [], head, head, HeldBy(stored), hash);
      }
    }
  }

  lemma RootIsRetained(g: Graph, roots: set<string>, head: string)
    requires head in roots && head != ""
    ensures head in Retained(g, roots)
  {
    AncestorSelf(g, head);
    assert head in roots - {""};
  }

  /** The versions the pending log still names. */
  function PendingVersions(ops: seq<Op>): set<string> {
    (set op | op in ops && op.id != "" :: op.id) + (set op, p | op in ops && p in op.parents && p != "" :: p)
  }

  /** What is needed is in the keep-set computed over the swept graph, so a disk safe for that keeps it. */
  lemma NeededIsKept(
    c: Codec, d: Disk, m: Index, x: Disk, entries: RegistryDisk.Entries, g: Graph, roots: set<string>, stored: set<string>,
    keep: set<string>)
    requires forall id :: id in entries && Head(entries[id]).Some? ==> Head(entries[id]).value in roots
    requires forall h :: h in keep <==> Referenced(entries, Some(Swept(g, roots)), HeldBy(stored), h)
    requires PS.Safe(c, x, PS.Promised(c, d, m, keep))
    ensures KeepsNeeded(c, d, m, x, entries, g, stored)
  {
    forall h | Needed(entries, g, stored, h) && ReadVia(c, d, m, h).Some? ensures Reads(c, x, h).Some? {
      ReferencedIsNeeded(entries, g, stored, h);
      SweepKeepsReferenced(entries, g, roots, stored, h);
      assert h in PS.Promised(c, d, m, keep);
    }
  }

  /** A version the vault still names: an entry's head or open head, or a pending operation or its parent. */
  ghost predicate VaultNames(entries: RegistryDisk.Entries, pending: seq<Op>, v: string) {
    v != "" && (
      || (exists id :: id in entries && EntryNames(entries[id], v))
      || (exists op :: op in pending && (op.id == v || v in op.parents)))
  }

  predicate EntryNames(e: FileEntry, v: string) {
    e.headVersionId == Some(v) || (e.conflictParents.Some? && v in e.conflictParents.value)
  }

  /** The roots the collection sweeps to are the versions the vault names. */
  lemma RootsAreNamed(entries: RegistryDisk.Entries, pending: seq<Op>, roots: set<string>)
    requires forall v :: v in roots <==> exists id :: id in entries && v in NamedBy(entries[id])
    ensures forall v :: v in roots + PendingVersions(pending) <==> VaultNames(entries, pending, v)
  {
    forall v ensures v in roots + PendingVersions(pending) <==> VaultNames(entries, pending, v) {
      forall id | id in entries ensures v in NamedBy(entries[id]) <==> v != "" && EntryNames(entries[id], v) {
      }
    }
  }

  /** What a sweep to the versions the vault names leaves, version by version. */
  ghost predicate SweptToNamed(entries: RegistryDisk.Entries, pending: seq<Op>, g: Graph, g': Graph) {
    forall v :: SweptAt(entries, pending, g, g', v)
  }

  ghost predicate SweptAt(entries: RegistryDisk.Entries, pending: seq<Op>, g: Graph, g': Graph, v: string) {
    && (v in g' ==> v in g && g'[v] == g[v])
    && (v in g ==> (v in g' <==>
          || (exists r :: VaultNames(entries, pending, r) && Ancestor(g, v, r))
          || !(exists r :: VaultNames(entries, pending, r) && r in g)))
  }

  lemma SweepMeans(entries: RegistryDisk.Entries, pending: seq<Op>, g: Graph, roots: set<string>)
    requires forall v :: v in roots <==> VaultNames(entries, pending, v)
    ensures SweptToNamed(entries, pending, g, Swept(g, roots))
  {
    forall v ensures SweptAt(entries, pending, g, Swept(g, roots), v) {
      assert v in g ==> (Kept(g, roots, v) <==> exists r :: VaultNames(entries, pending, r) && Ancestor(g, v, r));
    }
  }

  /** A pack past the window that holds nothing needed is gone with all its entries. */
  lemma UnneededGoes(
    c: Codec, d0: Disk, m0: Index, keep: set<string>, d: Disk, m: Index, p: nat, n: nat, entries: RegistryDisk.Entries, g: Graph,
    roots: set<string>, stored: set<string>)
    requires forall id :: id in entries && Head(entries[id]).Some? ==> Head(entries[id]).value in roots
    requires forall h :: h in keep <==> Referenced(entries, Some(Swept(g, roots)), HeldBy(stored), h)
    requires PS.Collected(c, d0, m0, keep, d, m, p, n) && HoldsNothingNeeded(m0, p, entries, g, stored)
    ensures PS.Removed(m0, d, m, p)
  {
    var members := set h | h in m0 && m0[h].packId == p;
    forall h | h in members ensures h !in keep {
      ReferencedIsNeeded(entries, g, stored, h);
      SweepKeepsReferenced(entries, g, roots, stored, h);
    }
    assert members * keep == {};
    var h :| h in m0 && m0[h].packId == p;
    assert h in members;
  }

  /** A pack in the index, none of whose blobs is needed. */
  ghost predicate HoldsNothingNeeded(m: Index, p: nat, entries: RegistryDisk.Entries, g: Graph, stored: set<string>) {
    && (exists h :: h in m && m[h].packId == p)
    && forall h :: h in m && m[h].packId == p ==> !Needed(entries, g, stored, h)
  }

  /**
   * The scheduled collection: sweep the graph, compute the keep-set against what the store holds, then
   * collect. Whatever disk state a crash leaves, and whatever disk the store was opened on, each blob
   * that could be read, and that is a live entry's content or is reached from a live head without a
   * gap in the graph before the sweep, can still be read. The sweep leaves just the versions the vault
   * names and their ancestors, and packs past the window that hold nothing needed are gone.
   */
  method RunContentGc(
    entries: RegistryDisk.Entries, pending: seq<Op>, dag: VersionDag, store: ContentStore, mtime: map<nat, int>,
    retentionMs: int, now: int)
    returns (threw: bool)
    requires store.Inv()
    modifies dag, store
    ensures store.Inv() && (!threw && old(store.Valid()) ==> store.Valid())
    ensures var stored := old(store.memBlobs.Keys + store.index.Keys);
      forall x :: (x in store.seen && x !in old(store.seen)) || x == store.disk ==>
        KeepsNeeded(store.codec, old(store.disk), old(store.index), x, entries, old(dag.nodes), stored)
    ensures SweptToNamed(entries, pending, old(dag.nodes), dag.nodes)
    ensures var stored := old(store.memBlobs.Keys + store.index.Keys);
      !threw && old(store.packBuffer) == [] ==> forall p: nat ::
        p in old(store.disk).packs && p in mtime && now - mtime[p] >= retentionMs
        && HoldsNothingNeeded(old(store.index), p, entries, old(dag.nodes), stored) ==>
          PS.Removed(old(store.index), store.disk, store.index, p)
  {
    ghost var g := dag.nodes;
    var stored := store.memBlobs.Keys + store.index.Keys;
    var roots := VersionRoots(entries);
    RootsAreNamed(entries, pending, roots);
    roots := roots + PendingVersions(pending);
    forall id | id in entries && Head(entries[id]).Some? ensures Head(entries[id]).value in roots {
      assert Head(entries[id]).value in NamedBy(entries[id]);
    }
    SweepMeans(entries, pending, g, roots);
    var dropped := dag.SweepToRoots(roots);
    var keep := ReferencedHashes(entries, dag, HeldBy(stored));
    ghost var d, m, seen0 := store.disk, store.index, store.seen;
    threw := store.Gc(keep, mtime, retentionMs, now);
    forall x | (x in store.seen && x !in seen0) || x == store.disk
      ensures KeepsNeeded(store.codec, d, m, x, entries, g, stored)
    {
      assert PS.SafeAt(store.codec, seen0, store.seen, PS.Promised(store.codec, d, m, keep), x);
      NeededIsKept(store.codec, d, m, x, entries, g, roots, stored, keep);
    }
    forall p: nat | !threw && old(store.packBuffer) == [] && p in d.packs && p in mtime && now - mtime[p] >= retentionMs
      && HoldsNothingNeeded(m, p, entries, g, stored)
      ensures PS.Removed(m, store.disk, store.index, p)
    {
      UnneededGoes(store.codec, d, m, keep, store.disk, store.index, p, old(store.nextPackId), entries, g, roots, stored);
    }
  }
}
