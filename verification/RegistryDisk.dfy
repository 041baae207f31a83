/** The registry's two files: a snapshot, the journal replayed over it, and what a crash leaves. */
module RegistryDisk {
  import opened Base
  import opened Vault

  type Entries = map<string, FileEntry>

  /** A journal line: the whole entry, or the removal of an id. */
  datatype Rec = Upsert(entry: FileEntry) | Del(id: string)

  /** The parsed contents of the two files; an absent one is empty. */
  datatype Files = Files(snapshot: Entries, journal: seq<Rec>)

  function IdOf(rec: Rec): string {
    match rec
    case Upsert(entry) => entry.id
    case Del(id) => id
  }

  function Applied(m: Entries, rec: Rec): Entries {
    match rec
    case Upsert(entry) => m[entry.id := entry]
    case Del(id) => m - {id}
  }

  /** Journal lines replayed in order. */
  function Replay(m: Entries, recs: seq<Rec>): Entries
    decreases |recs|
  {
    if recs == [] then m else Applied(Replay(m, recs[..|recs| - 1]), recs[|recs| - 1])
  }

  /** The map a reload builds. */
  function Loaded(f: Files): Entries {
    Replay(f.snapshot, f.journal)
  }

  function At(m: Entries, id: string): Option<FileEntry> {
    if id in m then Some(m[id]) else None
  }

  /** The last journal line about an id. */
  function LastFor(recs: seq<Rec>, id: string): Option<Rec>
    decreases |recs|
  {
    if recs == [] then None
    else if IdOf(recs[|recs| - 1]) == id then Some(recs[|recs| - 1])
    else LastFor(recs[..|recs| - 1], id)
  }

  function Says(rec: Rec): Option<FileEntry> {
    if rec.Upsert? then Some(rec.entry) else None
  }

  /** Last write wins: an id reads as its last line says, and as the snapshot had it without one. */
  lemma {:induction false} ReplayAt(m: Entries, recs: seq<Rec>, id: string)
    ensures At(Replay(m, recs), id) == (if LastFor(recs, id).Some? then Says(LastFor(recs, id).value) else At(m, id))
    ensures LastFor(recs, id).Some? ==> LastFor(recs, id).value in recs
    decreases |recs|
  {
    if recs != [] {
      ReplayAt(m, recs[..|recs| - 1], id);
    }
  }

  lemma SameEverywhere(m: Entries, n: Entries)
    requires forall id :: At(m, id) == At(n, id)
    ensures m == n
  {
    forall id ensures (id in m <==> id in n) && (id in m ==> m[id] == n[id]) {
      assert At(m, id) == At(n, id);
    }
  }

  lemma {:induction false} LastForAppend(xs: seq<Rec>, ys: seq<Rec>, id: string)
    ensures LastFor(xs + ys, id) == if LastFor(ys, id).Some? then LastFor(ys, id) else LastFor(xs, id)
    decreases |ys|
  {
    if ys == [] {
      assert xs + ys == xs;
    } else {
      assert (xs + ys)[..|xs + ys| - 1] == xs + ys[..|ys| - 1];
      LastForAppend(xs, ys[..|ys| - 1], id);
    }
  }

  /**
   * A crash between compaction's two writes leaves the new snapshot under the old journal. It reads
   * as the new snapshot exactly when every journalled id's last line agrees with it.
   */
  lemma StaleJournalIff(entries: Entries, journal: seq<Rec>)
    ensures Replay(entries, journal) == entries <==>
      forall id :: LastFor(journal, id).Some? ==> Says(LastFor(journal, id).value) == At(entries, id)
  {
    if forall id :: LastFor(journal, id).Some? ==> Says(LastFor(journal, id).value) == At(entries, id) {
      forall id ensures At(Replay(entries, journal), id) == At(entries, id) {
        ReplayAt(entries, journal, id);
      }
      SameEverywhere(Replay(entries, journal), entries);
    } else {
      var id :| LastFor(journal, id).Some? && Says(LastFor(journal, id).value) != At(entries, id);
      ReplayAt(entries, journal, id);
    }
  }

  /** Memory and disk agree on an id. */
  predicate AgreesAt(entries: Entries, dirty: set<string>, loaded: Entries, id: string) {
    id in dirty || At(loaded, id) == At(entries, id)
  }

  ghost predicate Agrees(entries: Entries, dirty: set<string>, loaded: Entries) {
    forall id :: AgreesAt(entries, dirty, loaded, id)
  }

  lemma AgreesFully(entries: Entries, loaded: Entries)
    requires Agrees(entries, {}, loaded)
    ensures loaded == entries
  {
    forall id ensures At(loaded, id) == At(entries, id) {
      assert AgreesAt(entries, {}, loaded, id);
    }
    SameEverywhere(loaded, entries);
  }

  /** An id reads as it did before, or as memory has it now. */
  predicate BetweenAt(before: Entries, after: Entries, loaded: Entries, id: string) {
    At(loaded, id) == At(before, id) || At(loaded, id) == At(after, id)
  }

  ghost predicate Between(before: Entries, after: Entries, loaded: Entries) {
    forall id :: BetweenAt(before, after, loaded, id)
  }

  lemma BetweenSame(m: Entries, loaded: Entries)
    requires Between(m, m, loaded)
    ensures loaded == m
  {
    forall id ensures At(loaded, id) == At(m, id) {
      assert BetweenAt(m, m, loaded, id);
    }
    SameEverywhere(loaded, m);
  }

  lemma BetweenEnds(before: Entries, after: Entries)
    ensures Between(before, after, before) && Between(before, after, after)
  {
    forall id ensures BetweenAt(before, after, before, id) && BetweenAt(before, after, after, id) {
    }
  }

  /**
   * If nothing is dirty and no entry was dropped, a crash between compaction's two writes recovers
   * the same map.
   */
  lemma CompactCrashRecovers(f: Files, entries: Entries)
    requires Loaded(f) == entries
    ensures Replay(entries, f.journal) == entries
  {
    forall id ensures LastFor(f.journal, id).Some? ==> Says(LastFor(f.journal, id).value) == At(entries, id) {
      ReplayAt(f.snapshot, f.journal, id);
    }
    StaleJournalIff(entries, f.journal);
  }

  /** In general it reads each id as the disk had it or as memory has it. */
  lemma CompactCrashBetween(f: Files, entries: Entries)
    ensures Between(Loaded(f), entries, Replay(entries, f.journal))
  {
    forall id ensures BetweenAt(Loaded(f), entries, Replay(entries, f.journal), id) {
      ReplayAt(f.snapshot, f.journal, id);
      ReplayAt(entries, f.journal, id);
    }
  }

  /**
   * A reclaimed tombstone comes back after that crash exactly when its last journal line still holds
   * it; likewise an unflushed change is undone exactly when the journal says otherwise.
   */
  lemma CompactCrashIff(f: Files, entries: Entries, stale: set<string>)
    requires Agrees(entries, stale, Loaded(f))
    ensures Replay(entries, f.journal) == entries <==>
      forall id :: id in stale && LastFor(f.journal, id).Some? ==> Says(LastFor(f.journal, id).value) == At(entries, id)
  {
    forall id ensures id !in stale && LastFor(f.journal, id).Some? ==> Says(LastFor(f.journal, id).value) == At(entries, id) {
      assert AgreesAt(entries, stale, Loaded(f), id);
      ReplayAt(f.snapshot, f.journal, id);
    }
    StaleJournalIff(entries, f.journal);
  }

  // ------------------------------------------------------------------ the delta

  /** One line for each dirty id, resolved against the map. */
  function RecFor(entries: Entries, id: string): Rec {
    if id in entries then Upsert(entries[id]) else Del(id)
  }

  ghost predicate Delta(recs: seq<Rec>, entries: Entries, ids: set<string>) {
    && (forall k :: 0 <= k < |recs| ==> IdOf(recs[k]) in ids && recs[k] == RecFor(entries, IdOf(recs[k])))
    && (forall id :: id in ids ==> LastFor(recs, id).Some?)
  }

  ghost predicate KeyedById(entries: Entries) {
    forall id :: id in entries ==> entries[id].id == id
  }

  lemma DeltaMore(recs: seq<Rec>, entries: Entries, ids: set<string>, id: string)
    requires Delta(recs, entries, ids) && KeyedById(entries)
    ensures Delta(recs + [RecFor(entries, id)], entries, ids + {id})
  {
    var rec := RecFor(entries, id);
    forall x | x in ids + {id} ensures LastFor(recs + [rec], x).Some? {
      LastForAppend(recs, [rec], x);
      assert [rec][..0] == [];
    }
  }

  /** Any whole-line prefix of the delta reads each id as before or as memory has it; the whole delta, as memory. */
  lemma DeltaReads(f: Files, recs: seq<Rec>, entries: Entries, dirty: set<string>, k: nat)
    requires Delta(recs, entries, dirty) && KeyedById(entries) && k <= |recs|
    requires Agrees(entries, dirty, Loaded(f))
    ensures Between(Loaded(f), entries, Loaded(f.(journal := f.journal + recs[..k])))
    ensures k == |recs| ==> Loaded(f.(journal := f.journal + recs[..k])) == entries
  {
    var g := f.(journal := f.journal + recs[..k]);
    forall id
      ensures BetweenAt(Loaded(f), entries, Loaded(g), id)
      ensures k == |recs| ==> At(Loaded(g), id) == At(entries, id)
    {
      assert AgreesAt(entries, dirty, Loaded(f), id);
      LastForAppend(f.journal, recs[..k], id);
      ReplayAt(f.snapshot, g.journal, id);
      ReplayAt(f.snapshot, f.journal, id);
      LastIsDelta(recs[..k], entries, id);
      assert k == |recs| ==> recs[..k] == recs;
    }
    if k == |recs| {
      SameEverywhere(Loaded(g), entries);
    }
  }

  lemma {:induction false} LastIsDelta(recs: seq<Rec>, entries: Entries, id: string)
    requires forall k :: 0 <= k < |recs| ==> recs[k] == RecFor(entries, IdOf(recs[k]))
    ensures LastFor(recs, id).Some? ==> Says(LastFor(recs, id).value) == At(entries, id)
    decreases |recs|
  {
    if recs != [] {
      assert recs[|recs| - 1] == RecFor(entries, IdOf(recs[|recs| - 1]));
      LastIsDelta(recs[..|recs| - 1], entries, id);
    }
  }

  /** Removing the snapshot before the journal, as a reset does: ids read as before or not at all. */
  lemma ResetCrashBetween(f: Files)
    ensures Between(Loaded(f), map[], Loaded(f.(snapshot := map[])))
  {
    forall id ensures BetweenAt(Loaded(f), map[], Loaded(f.(snapshot := map[])), id) {
      ReplayAt(f.snapshot, f.journal, id);
      ReplayAt(map[], f.journal, id);
    }
  }
}
