/** The file identity registry: entries, the path index over them, and their journal. */
module Registry {
  import opened Base
  import opened Hlc
  import opened Vault
  import opened RegistryDisk

  // ------------------------------------------------------------ the path index

  predicate CoherentAt(entries: Entries, pathIndex: map<string, string>, path: string) {
    path in pathIndex ==> pathIndex[path] in entries && entries[pathIndex[path]].path == path
  }

  /** Every indexed path names an existing entry that has that path. */
  ghost predicate Coherent(entries: Entries, pathIndex: map<string, string>) {
    forall path :: CoherentAt(entries, pathIndex, path)
  }

  /** Indexing an entry under its path, after forgetting the path it had. */
  lemma IndexKeepsCoherent(entries: Entries, pathIndex: map<string, string>, e: FileEntry)
    requires Coherent(entries, pathIndex)
    ensures var dropped := if e.id in entries && entries[e.id].path != e.path then pathIndex - {entries[e.id].path} else pathIndex;
      Coherent(entries[e.id := e], dropped[e.path := e.id]) && Coherent(entries[e.id := e], dropped)
  {
    var dropped := if e.id in entries && entries[e.id].path != e.path then pathIndex - {entries[e.id].path} else pathIndex;
    var entries' := entries[e.id := e];
    var indexed := dropped[e.path := e.id];
    forall path ensures CoherentAt(entries', indexed, path) && CoherentAt(entries', dropped, path) {
      assert CoherentAt(entries, pathIndex, path);
    }
  }

  /** Dropping ids together with the paths that lead to them. */
  lemma DropKeepsCoherent(entries: Entries, pathIndex: map<string, string>, ids: set<string>)
    requires Coherent(entries, pathIndex)
    ensures Coherent(entries - ids, Unindexed(pathIndex, ids))
  {
    forall path ensures CoherentAt(entries - ids, Unindexed(pathIndex, ids), path) {
      assert CoherentAt(entries, pathIndex, path);
    }
  }

  function Unindexed(pathIndex: map<string, string>, ids: set<string>): map<string, string> {
    map path | path in pathIndex && pathIndex[path] !in ids :: pathIndex[path]
  }

  /** An index over the live entries: each indexed path has one, each live entry's path is indexed. */
  ghost predicate IndexesLive(entries: Entries, pathIndex: map<string, string>) {
    && (forall path :: path in pathIndex ==>
          pathIndex[path] in entries && !entries[pathIndex[path]].deleted && entries[pathIndex[path]].path == path)
    && (forall id :: id in entries && !entries[id].deleted ==> entries[id].path in pathIndex)
  }

  // ---------------------------------------------------------- dirty bookkeeping

  /** Memory changed at the touched ids only. */
  ghost predicate ChangedOnly(m: Entries, m': Entries, touched: set<string>) {
    forall id :: id !in touched ==> At(m', id) == At(m, id)
  }

  lemma TouchKeepsAgreement(m: Entries, m': Entries, dirty: set<string>, loaded: Entries, touched: set<string>)
    requires Agrees(m, dirty, loaded) && ChangedOnly(m, m', touched)
    ensures Agrees(m', dirty + touched, loaded)
  {
    forall id ensures AgreesAt(m', dirty + touched, loaded, id) {
      assert AgreesAt(m, dirty, loaded, id);
    }
  }

  ghost predicate BetweenSince(before: iset<Files>, after: iset<Files>, r0: Entries, m: Entries, x: Files) {
    x in after ==> x in before || Between(r0, m, Loaded(x))
  }

  /** Every disk state since `before` reads each id as `r0` has it or as `m` has it. */
  ghost predicate OnlyBetween(before: iset<Files>, after: iset<Files>, r0: Entries, m: Entries) {
    before <= after && forall x :: BetweenSince(before, after, r0, m, x)
  }

  lemma OnlyBetweenNow(before: iset<Files>, r0: Entries, m: Entries)
    ensures OnlyBetween(before, before, r0, m)
  {
    forall x ensures BetweenSince(before, before, r0, m, x) {
    }
  }

  // -------------------------------------------------------------- reclamation

  const DAY_MS: real := 86400000.0
  const MIN_TOMBSTONE_RETENTION_MS: real := 30.0 * DAY_MS

  /** `now` and the ids a pending operation still names. */
  datatype Reclaim = Reclaim(now: int, pinned: set<string>)

  /** The configured window in days, `None` when it is no finite number; never below thirty days. */
  function TombstoneRetentionMs(days: Option<real>): (ms: real)
    ensures ms >= MIN_TOMBSTONE_RETENTION_MS
    ensures days.Some? && days.value >= 30.0 ==> ms == days.value * DAY_MS
    ensures days.None? || days.value < 30.0 ==> ms == MIN_TOMBSTONE_RETENTION_MS
  {
    var configured := if days.Some? then days.value * DAY_MS else 0.0;
    if configured >= MIN_TOMBSTONE_RETENTION_MS then configured else MIN_TOMBSTONE_RETENTION_MS
  }

  /** A tombstone old enough, named by no pending operation, and in no unresolved conflict. */
  predicate Reclaimable(e: FileEntry, id: string, reclaim: Reclaim, days: Option<real>) {
    && e.deleted && e.conflictParents.None? && id !in reclaim.pinned
    && e.hlcTimestamp.wallTime as real <= reclaim.now as real - TombstoneRetentionMs(days)
  }

  function ReclaimedIds(entries: Entries, reclaim: Reclaim, days: Option<real>): set<string> {
    set id | id in entries && Reclaimable(entries[id], id, reclaim, days)
  }

  class FileRegistry {
    const recSize: Rec -> nat           // the length of a journal line
    const snapshotSize: Entries -> nat  // the length of a snapshot
    var entries: Entries
    var pathIndex: map<string, string>
    var deferSave: bool
    var dirtyIds: set<string>
    var journalBytes: nat
    var journalRecords: nat
    var snapshotBytes: nat
    var disk: Files
    ghost var seen: iset<Files>         // every state the two files have been in, torn appends included

    ghost predicate Inv()
      reads this
    {
      && Coherent(entries, pathIndex) && KeyedById(entries)
      && Agrees(entries, dirtyIds, Loaded(disk))
      && Sized() && disk in seen && SnapshotsKeyed()
    }

    /** The counts the compaction goes by are those of the two files. */
    ghost predicate Sized()
      reads this
    {
      && journalRecords == |disk.journal| && journalBytes == BytesOf(disk.journal, recSize)
      && snapshotBytes <= snapshotSize(disk.snapshot)
    }

    /** The journal has not outgrown the snapshot, nor the number of entries by much. */
    ghost predicate JournalIsShort()
      reads this
    {
      && BytesOf(disk.journal, recSize) <= snapshotSize(disk.snapshot)
      && |disk.journal| <= Max(1000, 2 * |entries|)
    }

    /** Every snapshot that has been on disk keys its entries by their ids. */
    ghost predicate SnapshotsKeyed()
      reads this`seen
    {
      forall x :: x in seen ==> KeyedById(x.snapshot)
    }

    /** What a mutation leaves: written through, or marked dirty while saves are suspended. */
    ghost predicate SavedOver(defer0: bool, disk0: Files, dirty0: set<string>, seen0: iset<Files>, touched: set<string>)
      reads this
    {
      && Inv() && deferSave == defer0
      && (if deferSave then disk == disk0 && seen == seen0 && dirtyIds == dirty0 + touched
          else dirtyIds == {} && Loaded(disk) == entries)
      && OnlyBetween(seen0, seen, Loaded(disk0), entries)
    }

    /** What a call that finds nothing to do leaves. */
    ghost predicate NothingChanged(defer0: bool, disk0: Files, dirty0: set<string>, seen0: iset<Files>)
      reads this
    {
      Inv() && deferSave == defer0 && disk == disk0 && dirtyIds == dirty0 && seen == seen0
    }

    // ------------------------------------------------------------- the two files

    method AppendJournal(recs: seq<Rec>)
      modifies this`disk, this`seen
      ensures disk == old(disk).(journal := old(disk).journal + recs)
      ensures forall x :: x in seen <==> x in old(seen) || exists k :: 0 <= k <= |recs| && x == Grown(old(disk), recs, k)
    {
      assert recs[..|recs|] == recs;
      seen := seen + iset k | 0 <= k <= |recs| :: Grown(disk, recs, k);
      disk := disk.(journal := disk.journal + recs);
    }

    method WriteSnapshot(m: Entries)
      modifies this`disk, this`seen
      ensures disk == old(disk).(snapshot := m) && seen == old(seen) + iset{disk}
    {
      disk := disk.(snapshot := m);
      seen := seen + iset{disk};
    }

    method TruncateJournal()
      modifies this`disk, this`seen
      ensures disk == old(disk).(journal := []) && seen == old(seen) + iset{disk}
    {
      disk := disk.(journal := []);
      seen := seen + iset{disk};
    }

    // -------------------------------------------------------------- persistence

    predicate ShouldCompact()
      reads this
    {
      journalBytes > snapshotBytes
      || journalRecords > if 2 * |entries| > 1000 then 2 * |entries| else 1000
    }

    /** Append one line for each dirty id; while saves are not suspended, compact when due. */
    method Flush()
      requires Inv()
      modifies this`disk, this`seen, this`dirtyIds, this`journalBytes, this`journalRecords, this`snapshotBytes
      ensures Inv() && dirtyIds == {} && Loaded(disk) == entries
      ensures OnlyBetween(old(seen), seen, Loaded(old(disk)), entries)
      ensures old(dirtyIds) != {} && !deferSave ==> JournalIsShort()
    {
      if dirtyIds == {} {
        AgreesFully(entries, Loaded(disk));
        OnlyBetweenNow(seen, Loaded(disk), entries);
        return;
      }
      AppendDirty();
      if !deferSave && ShouldCompact() {
        ghost var now := seen;
        FoldJournal(dirtyIds);
        BetweenThen(old(seen), now, seen, Loaded(old(disk)), entries);
      }
    }

    method AppendDirty()
      requires Inv()
      modifies this`disk, this`seen, this`dirtyIds, this`journalBytes, this`journalRecords
      ensures Inv() && dirtyIds == {} && Loaded(disk) == entries
      ensures OnlyBetween(old(seen), seen, Loaded(old(disk)), entries)
    {
      var recs := ListDelta(entries, dirtyIds);
      ghost var f := disk;
      DeltaReads(f, recs, entries, dirtyIds, |recs|);
      assert recs[..|recs|] == recs;
      AppendJournal(recs);
      assert disk == Grown(f, recs, |recs|);
      forall x ensures BetweenSince(old(seen), seen, Loaded(f), entries, x) {
        if x in seen && x !in old(seen) {
          var k: nat :| k <= |recs| && x == Grown(f, recs, k);
          DeltaReads(f, recs, entries, dirtyIds, k);
        }
      }
      BytesAppend(f.journal, recs, recSize);
      journalBytes := journalBytes + BytesOf(recs, recSize);
      journalRecords := journalRecords + |recs|;
      dirtyIds := {};
      forall id ensures AgreesAt(entries, {}, Loaded(disk), id) {
      }
    }

    /** Write memory as the new snapshot, then truncate the journal; `stale` is where the disk may differ. */
    method FoldJournal(ghost stale: set<string>)
      requires Coherent(entries, pathIndex) && KeyedById(entries) && Agrees(entries, stale, Loaded(disk))
      requires SnapshotsKeyed()
      modifies this`disk, this`seen, this`dirtyIds, this`journalBytes, this`journalRecords, this`snapshotBytes
      ensures Inv() && dirtyIds == {} && disk == Files(entries, [])
      ensures OnlyBetween(old(seen), seen, Loaded(old(disk)), entries)
      ensures stale == {} ==> OnlyBetween(old(seen), seen, entries, entries)
    {
      ghost var f := disk;
      CompactCrashBetween(f, entries);
      BetweenEnds(Loaded(f), entries);
      WriteSnapshot(entries);
      TruncateJournal();
      forall x ensures BetweenSince(old(seen), seen, Loaded(f), entries, x) {
      }
      if stale == {} {
        AgreesFully(entries, Loaded(f));
      }
      forall id ensures AgreesAt(entries, {}, Loaded(disk), id) {
      }
      snapshotBytes, journalBytes, journalRecords, dirtyIds := snapshotSize(entries), 0, 0, {};
    }

    /** Drop reclaimable tombstones, then fold the journal into a new snapshot if there is anything to fold. */
    method Compact(reclaim: Option<Reclaim>, days: Option<real>) returns (dropped: nat)
      requires Inv()
      modifies this`disk, this`seen, this`dirtyIds, this`journalBytes, this`journalRecords, this`snapshotBytes,
        this`entries, this`pathIndex
      ensures Inv() && OnlyBetween(old(seen), seen, Loaded(old(disk)), entries)
      ensures var ids := if reclaim.Some? then ReclaimedIds(old(entries), reclaim.value, days) else {};
        entries == old(entries) - ids && pathIndex == Unindexed(old(pathIndex), ids) && dropped == |ids|
      ensures forall id :: id in old(entries) ==>
        var e := old(entries)[id];
        id !in entries <==>
          && reclaim.Some? && e.deleted && e.conflictParents.None? && id !in reclaim.value.pinned
          && reclaim.value.now as real - e.hlcTimestamp.wallTime as real >= TombstoneRetentionMs(days)
      ensures if old(journalRecords) == 0 && dropped == 0 then
          dirtyIds == old(dirtyIds) && disk == old(disk) && seen == old(seen)
        else dirtyIds == {} && disk == Files(entries, [])
      ensures old(dirtyIds) == {} && dropped == 0 ==> OnlyBetween(old(seen), seen, entries, entries)
    {
      dropped := 0;
      ghost var stale := dirtyIds;
      assert Unindexed(pathIndex, {}) == pathIndex && entries - {} == entries;
      if reclaim.Some? {
        ghost var ids := ReclaimedIds(entries, reclaim.value, days);
        TouchKeepsAgreement(entries, entries - ids, dirtyIds, Loaded(disk), ids);
        dropped := ReclaimTombstones(reclaim.value, days);
        stale := stale + ids;
        assert dropped == 0 ==> ids == {};
      }
      if journalRecords == 0 && dropped == 0 {
        OnlyBetweenNow(seen, Loaded(disk), entries);
        OnlyBetweenNow(seen, entries, entries);
        return;
      }
      FoldJournal(stale);
    }

    /** Only old, unpinned, unconflicted tombstones go, each with the path that led to it. */
    method ReclaimTombstones(reclaim: Reclaim, days: Option<real>) returns (dropped: nat)
      requires Coherent(entries, pathIndex) && KeyedById(entries)
      modifies this`entries, this`pathIndex
      ensures var ids := ReclaimedIds(old(entries), reclaim, days);
        entries == old(entries) - ids && pathIndex == Unindexed(old(pathIndex), ids) && dropped == |ids|
      ensures Coherent(entries, pathIndex) && KeyedById(entries)
    {
      dropped := 0;
      var todo := entries.Keys;
      ghost var gone: set<string> := {};
      ghost var m, index := entries, pathIndex;
      assert entries - {} == entries && Unindexed(pathIndex, {}) == pathIndex;
      while todo != {}
        invariant todo <= m.Keys && gone <= m.Keys && todo !! gone
        invariant Dropping(m, index, entries, pathIndex, gone, dropped)
        invariant forall id :: SortedOut(m, todo, gone, reclaim, days, id)
        decreases todo
      {
        var id :| id in todo;
        assert entries[id] == m[id];
        assert SortedOut(m, todo, gone, reclaim, days, id);
        ghost var before := gone;
        if Reclaimable(entries[id], id, reclaim, days) {
          DropOne(m, index, entries, pathIndex, gone, dropped, id);
          if entries[id].path in pathIndex && pathIndex[entries[id].path] == id {
            pathIndex := pathIndex - {entries[id].path};
          }
          entries := entries - {id};
          gone, dropped := gone + {id}, dropped + 1;
        }
        forall x ensures SortedOut(m, todo - {id}, gone, reclaim, days, x) {
          assert SortedOut(m, todo, before, reclaim, days, x);
        }
        todo := todo - {id};
      }
      forall x ensures x in gone <==> x in ReclaimedIds(m, reclaim, days) {
        assert SortedOut(m, {}, gone, reclaim, days, x);
      }
      assert gone == ReclaimedIds(m, reclaim, days);
      DropKeepsCoherent(m, index, gone);
    }

    // ------------------------------------------------------------------ lifecycle

    /** Replay the journal over the snapshot, index the live paths, and compact when due. */
    constructor Load(f: Files, recSize: Rec -> nat, snapshotSize: Entries -> nat)
      requires KeyedById(f.snapshot)
      ensures Inv() && entries == Loaded(f) && IndexesLive(entries, pathIndex)
      ensures dirtyIds == {} && Loaded(disk) == entries && !deferSave
      ensures OnlyBetween(iset{f}, seen, entries, entries) && JournalIsShort()
    {
      var m := ReplayLines(f);
      var index := IndexLive(m);
      this.recSize, this.snapshotSize := recSize, snapshotSize;
      entries, pathIndex, deferSave, dirtyIds := m, index, false, {};
      disk, seen := f, iset{f};
      snapshotBytes, journalBytes, journalRecords := snapshotSize(f.snapshot), BytesOf(f.journal, recSize), |f.journal|;
      new;
      LiveIsCoherent(entries, pathIndex);
      forall id ensures AgreesAt(entries, {}, Loaded(disk), id) {
      }
      OnlyBetweenNow(seen, entries, entries);
      if journalRecords > 0 && ShouldCompact() {
        FoldJournal({});
      }
    }

    method SuspendSaves()
      modifies this`deferSave
      ensures deferSave
    {
      deferSave := true;
    }

    /** Does not flush what accumulated meanwhile. */
    method ResumeSaves()
      modifies this`deferSave
      ensures !deferSave
    {
      deferSave := false;
    }

    /** Forget everything, in memory and on disk: the snapshot goes first. */
    method ResetAll()
      requires SnapshotsKeyed()
      modifies this`entries, this`pathIndex, this`dirtyIds, this`journalBytes, this`journalRecords,
        this`snapshotBytes, this`disk, this`seen
      ensures Inv() && entries == map[] && disk == Files(map[], []) && dirtyIds == {}
      ensures OnlyBetween(old(seen), seen, Loaded(old(disk)), map[])
    {
      ghost var f := disk;
      ResetCrashBetween(f);
      BetweenEnds(Loaded(f), map[]);
      entries, pathIndex, dirtyIds := map[], map[], {};
      journalBytes, journalRecords, snapshotBytes := 0, 0, 0;
      WriteSnapshot(map[]);
      TruncateJournal();
      forall x ensures BetweenSince(old(seen), seen, Loaded(f), map[], x) {
      }
      forall path ensures CoherentAt(entries, pathIndex, path) {
      }
      forall id ensures AgreesAt(entries, {}, Loaded(disk), id) {
      }
    }

    /** Mark ids dirty and, unless saves are suspended, write them out. */
    method Save(ids: set<string>)
      requires Coherent(entries, pathIndex) && KeyedById(entries) && Agrees(entries, dirtyIds + ids, Loaded(disk))
      requires Sized() && disk in seen && SnapshotsKeyed()
      modifies this`disk, this`seen, this`dirtyIds, this`journalBytes, this`journalRecords, this`snapshotBytes
      ensures SavedOver(deferSave, old(disk), old(dirtyIds), old(seen), ids)
    {
      dirtyIds := dirtyIds + ids;
      OnlyBetweenNow(seen, Loaded(disk), entries);
      if !deferSave {
        Flush();
      }
    }

    // ------------------------------------------------------------------- mutation

    /** The entry a path leads to; an empty id reads as none. */
    function Tracked(path: string): Option<FileEntry>
      reads this`pathIndex, this`entries
    {
      if path in pathIndex && pathIndex[path] != "" then At(entries, pathIndex[path]) else None
    }

    /** Store a changed entry under the path it has. */
    method Store(e: FileEntry)
      requires Inv() && e.id in entries && entries[e.id].path == e.path
      modifies this
      ensures entries == old(entries)[e.id := e] && pathIndex == old(pathIndex)
      ensures SavedOver(old(deferSave), old(disk), old(dirtyIds), old(seen), {e.id})
    {
      IndexKeepsCoherent(entries, pathIndex, e);
      TouchKeepsAgreement(entries, entries[e.id := e], dirtyIds, Loaded(disk), {e.id});
      entries := entries[e.id := e];
      Save({e.id});
    }

    /** Store an entry and index its path, forgetting the path it had before. */
    method StoreAt(e: FileEntry, indexed: bool)
      requires Inv()
      modifies this
      ensures entries == old(entries)[e.id := e]
      ensures var dropped :=
          if e.id in old(entries) && old(entries)[e.id].path != e.path then old(pathIndex) - {old(entries)[e.id].path}
          else old(pathIndex);
        pathIndex == if indexed then dropped[e.path := e.id] else dropped
      ensures SavedOver(old(deferSave), old(disk), old(dirtyIds), old(seen), {e.id})
    {
      IndexKeepsCoherent(entries, pathIndex, e);
      TouchKeepsAgreement(entries, entries[e.id := e], dirtyIds, Loaded(disk), {e.id});
      if e.id in entries && entries[e.id].path != e.path {
        pathIndex := pathIndex - {entries[e.id].path};
      }
      entries := entries[e.id := e];
      if indexed {
        pathIndex := pathIndex[e.path := e.id];
      }
      Save({e.id});
    }

    /** A tracked path keeps its id, and a tombstone there comes back to life; else a new id is taken. */
    method RegisterFile(path: string, hlc: HLC, contentHash: string, stat: Option<Stat>, newId: string)
      returns (id: string)
      requires Inv() && newId != "" && newId !in entries
      modifies this
      ensures match old(Tracked(path))
        case None =>
          && id == newId && pathIndex == old(pathIndex)[path := newId]
          && entries == old(entries)[newId := FileEntry(newId, path, contentHash, hlc, false, None, None, None, stat)]
          && SavedOver(old(deferSave), old(disk), old(dirtyIds), old(seen), {id})
        case Some(e) =>
          && id == e.id && pathIndex == old(pathIndex)
          && if !e.deleted then entries == old(entries) && NothingChanged(old(deferSave), old(disk), old(dirtyIds), old(seen))
             else
               && entries == old(entries)[id := e.(deleted := false, contentHash := contentHash, hlcTimestamp := hlc,
                    stat := OrElse(stat, e.stat))]
               && SavedOver(old(deferSave), old(disk), old(dirtyIds), old(seen), {id})
      ensures id in entries && path in pathIndex && pathIndex[path] == id
    {
      assert CoherentAt(entries, pathIndex, path);
      if Tracked(path).Some? {
        var e := Tracked(path).value;
        id := e.id;
        if e.deleted {
          Store(e.(deleted := false, contentHash := contentHash, hlcTimestamp := hlc, stat := OrElse(stat, e.stat)));
        }
      } else {
        id := newId;
        StoreAt(FileEntry(newId, path, contentHash, hlc, false, None, None, None, stat), true);
      }
    }

    method UpdatePath(oldPath: string, newPath: string, hlc: HLC)
      requires Inv()
      modifies this
      ensures match old(Tracked(oldPath))
        case None =>
          entries == old(entries) && pathIndex == old(pathIndex)
          && NothingChanged(old(deferSave), old(disk), old(dirtyIds), old(seen))
        case Some(e) =>
          && entries == old(entries)[e.id := e.(path := newPath, hlcTimestamp := hlc)]
          && pathIndex == (old(pathIndex) - {oldPath})[newPath := e.id]
          && SavedOver(old(deferSave), old(disk), old(dirtyIds), old(seen), {e.id})
    {
      assert CoherentAt(entries, pathIndex, oldPath);
      if Tracked(oldPath).Some? {
        StoreAt(Tracked(oldPath).value.(path := newPath, hlcTimestamp := hlc), true);
      }
    }

    method UpdateContentHash(path: string, contentHash: string, hlc: HLC, stat: Option<Stat>)
      requires Inv()
      modifies this
      ensures pathIndex == old(pathIndex)
      ensures match old(Tracked(path))
        case None => entries == old(entries) && NothingChanged(old(deferSave), old(disk), old(dirtyIds), old(seen))
        case Some(e) =>
          && entries == old(entries)[e.id := e.(contentHash := contentHash, hlcTimestamp := hlc,
               stat := OrElse(stat, e.stat))]
          && SavedOver(old(deferSave), old(disk), old(dirtyIds), old(seen), {e.id})
    {
      assert CoherentAt(entries, pathIndex, path);
      if Tracked(path).Some? {
        var e := Tracked(path).value;
        Store(e.(contentHash := contentHash, hlcTimestamp := hlc, stat := OrElse(stat, e.stat)));
      }
    }

    method RecordStat(path: string, stat: Stat)
      requires Inv()
      modifies this
      ensures pathIndex == old(pathIndex)
      ensures match old(Tracked(path))
        case None => entries == old(entries) && NothingChanged(old(deferSave), old(disk), old(dirtyIds), old(seen))
        case Some(e) =>
          && entries == old(entries)[e.id := e.(stat := Some(stat))]
          && SavedOver(old(deferSave), old(disk), old(dirtyIds), old(seen), {e.id})
    {
      assert CoherentAt(entries, pathIndex, path);
      if Tracked(path).Some? {
        Store(Tracked(path).value.(stat := Some(stat)));
      }
    }

    /** The path stays indexed, so that a file made there again takes the id up. */
    method MarkDeleted(path: string, hlc: HLC)
      requires Inv()
      modifies this
      ensures pathIndex == old(pathIndex)
      ensures match old(Tracked(path))
        case None => entries == old(entries) && NothingChanged(old(deferSave), old(disk), old(dirtyIds), old(seen))
        case Some(e) =>
          && entries == old(entries)[e.id := e.(deleted := true, hlcTimestamp := hlc)]
          && SavedOver(old(deferSave), old(disk), old(dirtyIds), old(seen), {e.id})
    {
      assert CoherentAt(entries, pathIndex, path);
      if Tracked(path).Some? {
        Store(Tracked(path).value.(deleted := true, hlcTimestamp := hlc));
      }
    }

    /** A remote entry replaces ours only when its clock is strictly later. */
    method ApplyRemoteEntry(entry: FileEntry)
      requires Inv()
      modifies this
      ensures var mine := At(old(entries), entry.id);
        if mine.Some? && HlcCompare(mine.value.hlcTimestamp, entry.hlcTimestamp) >= 0 then
          entries == old(entries) && pathIndex == old(pathIndex)
          && NothingChanged(old(deferSave), old(disk), old(dirtyIds), old(seen))
        else
          && entries == old(entries)[entry.id := entry]
          && (!entry.deleted ==> entry.path in pathIndex && pathIndex[entry.path] == entry.id)
          && SavedOver(old(deferSave), old(disk), old(dirtyIds), old(seen), {entry.id})
    {
      if entry.id in entries && HlcCompare(entries[entry.id].hlcTimestamp, entry.hlcTimestamp) >= 0 {
        return;
      }
      StoreAt(entry, !entry.deleted);
    }

    /** Take over the other side's id at this path; another local id there is dropped for good. */
    method AdoptRemote(id: string, path: string, contentHash: string, hlc: HLC, headVersionId: Option<string>)
      requires Inv() && id != ""
      modifies this
      ensures var e := FileEntry(id, path, contentHash, hlc, false, Some(path),
          OrElse(headVersionId, Some(HlcToString(hlc))), None, None);
        var rival := if old(Tracked(path)).Some? && old(Tracked(path)).value.id != id then {old(Tracked(path)).value.id} else {};
        && entries == (old(entries) - rival)[id := e]
        && SavedOver(old(deferSave), old(disk), old(dirtyIds), old(seen), rival + {id})
      ensures path in pathIndex && pathIndex[path] == id
      ensures forall p :: p in pathIndex && pathIndex[p] == id ==> p == path
    {
      var rival := if Tracked(path).Some? && Tracked(path).value.id != id then {Tracked(path).value.id} else {};
      var e := FileEntry(id, path, contentHash, hlc, false, Some(path),
        OrElse(headVersionId, Some(HlcToString(hlc))), None, None);
      ghost var m, index := entries, pathIndex;
      AdoptKeepsCoherent(m, index, e, rival);
      TouchKeepsAgreement(m, (m - rival)[id := e], dirtyIds, Loaded(disk), rival + {id});
      entries := entries - rival;
      dirtyIds := dirtyIds + rival;
      if id in entries && entries[id].path != path {
        pathIndex := pathIndex - {entries[id].path};
      }
      entries := entries[id := e];
      pathIndex := pathIndex[path := id];
      assert dirtyIds + {id} == old(dirtyIds) + (rival + {id});
      Save({id});
      forall p | p in pathIndex && pathIndex[p] == id ensures p == path {
        assert CoherentAt(entries, pathIndex, p);
      }
    }

    method SetHeadVersion(fileId: string, versionId: string)
      requires Inv()
      modifies this
      ensures pathIndex == old(pathIndex)
      ensures if fileId !in old(entries) then
          entries == old(entries) && NothingChanged(old(deferSave), old(disk), old(dirtyIds), old(seen))
        else
          && entries == old(entries)[fileId := old(entries)[fileId].(headVersionId := Some(versionId))]
          && SavedOver(old(deferSave), old(disk), old(dirtyIds), old(seen), {fileId})
    {
      if fileId in entries {
        Store(entries[fileId].(headVersionId := Some(versionId)));
      }
    }

    method MarkConflicted(path: string, contentHash: string, hlc: HLC, parents: seq<string>)
      requires Inv()
      modifies this
      ensures pathIndex == old(pathIndex)
      ensures match old(Tracked(path))
        case None => entries == old(entries) && NothingChanged(old(deferSave), old(disk), old(dirtyIds), old(seen))
        case Some(e) =>
          && entries == old(entries)[e.id := e.(contentHash := contentHash, hlcTimestamp := hlc,
               conflictParents := Some(parents))]
          && SavedOver(old(deferSave), old(disk), old(dirtyIds), old(seen), {e.id})
    {
      assert CoherentAt(entries, pathIndex, path);
      if Tracked(path).Some? {
        Store(Tracked(path).value.(contentHash := contentHash, hlcTimestamp := hlc, conflictParents := Some(parents)));
      }
    }

    method ClearConflict(fileId: string)
      requires Inv()
      modifies this
      ensures pathIndex == old(pathIndex)
      ensures if fileId !in old(entries) || old(entries)[fileId].conflictParents.None? then
          entries == old(entries) && NothingChanged(old(deferSave), old(disk), old(dirtyIds), old(seen))
        else
          && entries == old(entries)[fileId := old(entries)[fileId].(conflictParents := None)]
          && SavedOver(old(deferSave), old(disk), old(dirtyIds), old(seen), {fileId})
    {
      if fileId in entries && entries[fileId].conflictParents.Some? {
        Store(entries[fileId].(conflictParents := None));
      }
    }

    method SetSyncedPath(fileId: string)
      requires Inv()
      modifies this
      ensures pathIndex == old(pathIndex)
      ensures if fileId !in old(entries) then
          entries == old(entries) && NothingChanged(old(deferSave), old(disk), old(dirtyIds), old(seen))
        else
          && entries == old(entries)[fileId := old(entries)[fileId].(lastSyncedPath := Some(old(entries)[fileId].path))]
          && SavedOver(old(deferSave), old(disk), old(dirtyIds), old(seen), {fileId})
    {
      if fileId in entries {
        Store(entries[fileId].(lastSyncedPath := Some(entries[fileId].path)));
      }
    }

    // ------------------------------------------------------------------ reconcile

    /** Give every listed, untracked path an id, and bury live entries whose file is gone. */
    method ReconcileWithVault(files: seq<string>, excluded: string -> bool, hlc: HLC, uuids: seq<string>)
      requires Inv() && |uuids| == |files|
      requires forall k :: 0 <= k < |uuids| ==> uuids[k] != "" && uuids[k] !in entries
      requires forall i, j :: 0 <= i < j < |uuids| ==> uuids[i] != uuids[j]
      modifies this
      ensures Inv() && deferSave == old(deferSave) && OnlyBetween(old(seen), seen, Loaded(old(disk)), entries)
      ensures if deferSave then disk == old(disk) && old(dirtyIds) <= dirtyIds
        else dirtyIds == {} && Loaded(disk) == entries
      ensures forall id :: id in old(entries) ==> id in entries && entries[id] == Buried(old(entries)[id], files, hlc)
      ensures forall id :: id in entries && id !in old(entries) ==>
        PlaceholderFor(entries[id], id, files, excluded, hlc, old(pathIndex))
      ensures forall k :: 0 <= k < |files| && !excluded(files[k]) ==> files[k] in pathIndex
      ensures forall path :: path in old(pathIndex) ==> path in pathIndex && pathIndex[path] == old(pathIndex)[path]
    {
      TrackNewFiles(files, excluded, hlc, uuids);
      BuryMissing(files, hlc);
      assert dirtyIds + {} == dirtyIds;
      Save({});
    }

    method TrackNewFiles(files: seq<string>, excluded: string -> bool, hlc: HLC, uuids: seq<string>)
      requires Inv() && |uuids| == |files|
      requires forall k :: 0 <= k < |uuids| ==> uuids[k] != "" && uuids[k] !in entries
      requires forall i, j :: 0 <= i < j < |uuids| ==> uuids[i] != uuids[j]
      modifies this`entries, this`pathIndex, this`dirtyIds
      ensures Inv() && old(dirtyIds) <= dirtyIds
      ensures forall id :: id in old(entries) ==> id in entries && entries[id] == old(entries)[id]
      ensures forall id :: id in entries && id !in old(entries) ==>
        PlaceholderFor(entries[id], id, files, excluded, hlc, old(pathIndex))
      ensures forall k :: 0 <= k < |files| && !excluded(files[k]) ==> files[k] in pathIndex
      ensures forall path :: path in old(pathIndex) ==> path in pathIndex && pathIndex[path] == old(pathIndex)[path]
    {
      for k := 0 to |files|
        invariant Inv() && old(dirtyIds) <= dirtyIds
        invariant forall j :: k <= j < |uuids| ==> uuids[j] !in entries
        invariant forall id :: id in old(entries) ==> id in entries && entries[id] == old(entries)[id]
        invariant forall id :: id in entries && id !in old(entries) ==>
          PlaceholderFor(entries[id], id, files, excluded, hlc, old(pathIndex))
        invariant forall path :: path in old(pathIndex) ==> path in pathIndex && pathIndex[path] == old(pathIndex)[path]
        invariant forall j :: 0 <= j < k && !excluded(files[j]) ==> files[j] in pathIndex
      {
        if files[k] !in pathIndex && !excluded(files[k]) {
          AddPlaceholder(FileEntry(uuids[k], files[k], "", hlc, false, None, None, None, None));
        }
      }
    }

    method AddPlaceholder(e: FileEntry)
      requires Inv() && e.id !in entries
      modifies this`entries, this`pathIndex, this`dirtyIds
      ensures Inv() && dirtyIds == old(dirtyIds) + {e.id}
      ensures entries == old(entries)[e.id := e] && pathIndex == old(pathIndex)[e.path := e.id]
    {
      IndexKeepsCoherent(entries, pathIndex, e);
      TouchKeepsAgreement(entries, entries[e.id := e], dirtyIds, Loaded(disk), {e.id});
      entries := entries[e.id := e];
      pathIndex := pathIndex[e.path := e.id];
      dirtyIds := dirtyIds + {e.id};
    }

    method BuryMissing(files: seq<string>, hlc: HLC)
      requires Inv()
      modifies this`entries, this`dirtyIds
      ensures Inv() && old(dirtyIds) <= dirtyIds && entries.Keys == old(entries).Keys
      ensures forall id :: id in entries ==> entries[id] == Buried(old(entries)[id], files, hlc)
    {
      var todo := entries.Keys;
      while todo != {}
        invariant todo <= entries.Keys && entries.Keys == old(entries).Keys
        invariant Inv() && old(dirtyIds) <= dirtyIds
        invariant forall id :: id in entries ==>
          entries[id] == if id in todo then old(entries)[id] else Buried(old(entries)[id], files, hlc)
        decreases todo
      {
        var id :| id in todo;
        todo := todo - {id};
        if !entries[id].deleted && entries[id].path !in files {
          var e := entries[id].(deleted := true, hlcTimestamp := hlc);
          IndexKeepsCoherent(entries, pathIndex, e);
          TouchKeepsAgreement(entries, entries[id := e], dirtyIds, Loaded(disk), {id});
          entries := entries[id := e];
          dirtyIds := dirtyIds + {id};
        }
      }
    }
  }

  /** The ids looked at are gone if they were reclaimable, and only those. */
  ghost predicate SortedOut(
    m: Entries, todo: set<string>, gone: set<string>, reclaim: Reclaim, days: Option<real>, id: string)
  {
    if id in todo then id !in gone else id in gone <==> id in m && Reclaimable(m[id], id, reclaim, days)
  }

  ghost predicate Dropping(
    m: Entries, index: map<string, string>, m': Entries, index': map<string, string>, gone: set<string>, dropped: nat)
  {
    Coherent(m, index) && m' == m - gone && index' == Unindexed(index, gone) && dropped == |gone|
  }

  lemma DropOne(
    m: Entries, index: map<string, string>, m': Entries, index': map<string, string>, gone: set<string>, dropped: nat,
    id: string)
    requires Dropping(m, index, m', index', gone, dropped) && id in m && id !in gone
    ensures var path := m[id].path;
      Dropping(m, index, m' - {id}, if path in index' && index'[path] == id then index' - {path} else index',
        gone + {id}, dropped + 1)
  {
    UnindexOne(m, index, gone, id);
    assert m - (gone + {id}) == m' - {id};
  }

  /** A new entry is the placeholder of a listed file that is not excluded and had no id. */
  predicate PlaceholderFor(
    e: FileEntry, id: string, files: seq<string>, excluded: string -> bool, hlc: HLC, pathIndex: map<string, string>)
  {
    && e.path in files && !excluded(e.path) && e.path !in pathIndex
    && e == FileEntry(id, e.path, "", hlc, false, None, None, None, None)
  }

  /** A live entry whose file is not listed becomes a tombstone. */
  function Buried(e: FileEntry, files: seq<string>, hlc: HLC): FileEntry {
    if !e.deleted && e.path !in files then e.(deleted := true, hlcTimestamp := hlc) else e
  }

  /** A live index is coherent. */
  lemma LiveIsCoherent(m: Entries, pathIndex: map<string, string>)
    requires IndexesLive(m, pathIndex)
    ensures Coherent(m, pathIndex)
  {
    forall path ensures CoherentAt(m, pathIndex, path) {
    }
  }

  /** The replay loop. */
  method ReplayLines(f: Files) returns (m: Entries)
    requires KeyedById(f.snapshot)
    ensures m == Loaded(f) && KeyedById(m)
  {
    m := f.snapshot;
    assert f.journal[..0] == [];
    for k := 0 to |f.journal|
      invariant m == Replay(f.snapshot, f.journal[..k]) && KeyedById(m)
    {
      assert f.journal[..k + 1][..k] == f.journal[..k];
      m := Applied(m, f.journal[k]);
    }
    assert f.journal[..|f.journal|] == f.journal;
  }

  /** The path index of a loaded map; of two live entries at one path, one is indexed. */
  method IndexLive(m: Entries) returns (pathIndex: map<string, string>)
    ensures IndexesLive(m, pathIndex)
  {
    pathIndex := map[];
    var todo := m.Keys;
    while todo != {}
      invariant todo <= m.Keys
      invariant forall path :: path in pathIndex ==>
        pathIndex[path] in m && !m[pathIndex[path]].deleted && m[pathIndex[path]].path == path
      invariant forall id :: id in m && id !in todo && !m[id].deleted ==> m[id].path in pathIndex
      decreases todo
    {
      var id :| id in todo;
      todo := todo - {id};
      if !m[id].deleted {
        pathIndex := pathIndex[m[id].path := id];
      }
    }
  }

  /** Adopting an id at a path whose rival is dropped. */
  lemma AdoptKeepsCoherent(m: Entries, pathIndex: map<string, string>, e: FileEntry, rival: set<string>)
    requires Coherent(m, pathIndex) && e.id !in rival
    requires forall id :: id in rival ==> e.path in pathIndex && pathIndex[e.path] == id
    ensures var dropped := if e.id in m - rival && m[e.id].path != e.path then pathIndex - {m[e.id].path} else pathIndex;
      Coherent((m - rival)[e.id := e], dropped[e.path := e.id])
  {
    var dropped := if e.id in m - rival && m[e.id].path != e.path then pathIndex - {m[e.id].path} else pathIndex;
    var m', index := (m - rival)[e.id := e], dropped[e.path := e.id];
    forall path ensures CoherentAt(m', index, path) {
      assert CoherentAt(m, pathIndex, path) && CoherentAt(m, pathIndex, e.path);
    }
  }

  function Grown(f: Files, recs: seq<Rec>, k: nat): Files
    requires k <= |recs|
  {
    f.(journal := f.journal + recs[..k])
  }

  function BytesOf(recs: seq<Rec>, recSize: Rec -> nat): nat {
    if recs == [] then 0 else recSize(recs[0]) + BytesOf(recs[1..], recSize)
  }

  lemma {:induction false} BytesAppend(xs: seq<Rec>, ys: seq<Rec>, recSize: Rec -> nat)
    ensures BytesOf(xs + ys, recSize) == BytesOf(xs, recSize) + BytesOf(ys, recSize)
  {
    if xs == [] {
      NilConcat(ys);
    } else {
      ConsAppend(xs, ys);
      BytesAppend(xs[1..], ys, recSize);
    }
  }

  lemma BetweenThen(before: iset<Files>, now: iset<Files>, after: iset<Files>, r0: Entries, m: Entries)
    requires OnlyBetween(before, now, r0, m) && OnlyBetween(now, after, m, m)
    ensures OnlyBetween(before, after, r0, m)
  {
    forall x ensures BetweenSince(before, after, r0, m, x) {
      assert BetweenSince(before, now, r0, m, x) && BetweenSince(now, after, m, m, x);
      if x in after && x !in now {
        forall id ensures BetweenAt(r0, m, Loaded(x), id) {
          assert BetweenAt(m, m, Loaded(x), id);
        }
      }
    }
  }

  /** Forgetting one more id takes at most the one path that led to it. */
  lemma UnindexOne(m: Entries, pathIndex: map<string, string>, gone: set<string>, id: string)
    requires Coherent(m, pathIndex) && id in m && id !in gone
    ensures var index := Unindexed(pathIndex, gone);
      Unindexed(pathIndex, gone + {id}) ==
        if m[id].path in index && index[m[id].path] == id then index - {m[id].path} else index
  {
    forall path ensures path in pathIndex && pathIndex[path] == id ==> path == m[id].path {
      assert CoherentAt(m, pathIndex, path);
    }
  }

  method ListDelta(entries: Entries, ids: set<string>) returns (recs: seq<Rec>)
    requires KeyedById(entries)
    ensures Delta(recs, entries, ids)
  {
    recs := [];
    var todo := ids;
    ghost var done: set<string> := {};
    while todo != {}
      invariant todo !! done && todo + done == ids
      invariant Delta(recs, entries, done)
      decreases todo
    {
      var id :| id in todo;
      DeltaMore(recs, entries, done, id);
      recs := recs + [RecFor(entries, id)];
      done, todo := done + {id}, todo - {id};
    }
    assert done == ids;
  }
}
