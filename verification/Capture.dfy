/** Offline capture and its checkpoints: blobs before the registry, the registry before the log. */
module Capture {
  import opened Base
  import opened Hlc
  import opened Vault
  import opened PackDisk
  import opened PackState
  import opened PackStore
  import opened CaptureRules
  import RegistryDisk
  import Registry
  import Oplog

  /** What is on disk: the packs and their index, the registry's two files, the journal. */
  datatype Disks = Disks(packs: Disk, registry: RegistryDisk.Files, journal: Oplog.File)

  /** The operation's file is in the durable registry and its blob readable from the durable packs. */
  ghost predicate BackedUp(c: Codec, packs: Disk, registry: RegistryDisk.Files, op: Op) {
    CarriesContent(op) ==>
      op.fileId in RegistryDisk.Loaded(registry) && Reads(c, packs, op.contentHash).Some?
  }

  /** No durable operation names an unregistered file or an unreadable blob, and the snapshot keys entries by id. */
  ghost predicate Durable(c: Codec, d: Disks) {
    && RegistryDisk.KeyedById(d.registry.snapshot)
    && forall op :: op in Oplog.Readable(d.journal) ==> BackedUp(c, d.packs, d.registry, op)
  }

  /** The operation's file is tracked, and its blob is stored or waiting for the next flush. */
  ghost predicate HasItsData(c: Codec, packs: Disk, pending: set<string>, entries: RegistryDisk.Entries, op: Op) {
    CarriesContent(op) ==>
      op.fileId in entries && (op.contentHash in pending || Reads(c, packs, op.contentHash).Some?)
  }

  ghost predicate AllHaveData(
    c: Codec, packs: Disk, pending: set<string>, entries: RegistryDisk.Entries, ops: seq<Op>)
  {
    forall op :: op in ops ==> HasItsData(c, packs, pending, entries, op)
  }

  // ------------------------------------------------------------- what keeps it durable

  /** More readable blobs keep every durable operation backed. */
  lemma PacksKeepDurable(c: Codec, d: Disks, packs: Disk)
    requires Durable(c, d) && KeepsAll(c, d.packs, packs)
    ensures Durable(c, d.(packs := packs))
  {
    forall op | op in Oplog.Readable(d.journal) ensures BackedUp(c, packs, d.registry, op) {
      assert BackedUp(c, d.packs, d.registry, op);
    }
  }

  /** A registry state between the durable one and memory keeps them backed, if memory tracks their files. */
  lemma RegistryKeepsDurable(c: Codec, d: Disks, entries: RegistryDisk.Entries, registry: RegistryDisk.Files)
    requires Durable(c, d) && RegistryDisk.KeyedById(registry.snapshot)
    requires RegistryDisk.Between(RegistryDisk.Loaded(d.registry), entries, RegistryDisk.Loaded(registry))
    requires forall op :: op in Oplog.Readable(d.journal) && CarriesContent(op) ==> op.fileId in entries
    ensures Durable(c, d.(registry := registry))
  {
    forall op | op in Oplog.Readable(d.journal) ensures BackedUp(c, d.packs, registry, op) {
      assert BackedUp(c, d.packs, d.registry, op);
      assert RegistryDisk.BetweenAt(RegistryDisk.Loaded(d.registry), entries, RegistryDisk.Loaded(registry), op.fileId);
    }
  }

  /** Operations may be appended once their files and blobs are durable. */
  lemma JournalKeepsDurable(c: Codec, d: Disks, journal: Oplog.File, delta: seq<Op>, k: nat)
    requires Durable(c, d) && k <= |delta|
    requires Oplog.Readable(journal) == Oplog.Readable(d.journal) + delta[..k]
    requires forall op :: op in delta ==> BackedUp(c, d.packs, d.registry, op)
    ensures Durable(c, d.(journal := journal))
  {
    forall op | op in Oplog.Readable(journal) ensures BackedUp(c, d.packs, d.registry, op) {
      if op !in Oplog.Readable(d.journal) {
        assert op in delta[..k];
        assert op in delta;
      }
    }
  }

  /** After a flush every buffered blob reads. */
  lemma FlushBacksAll(c: Codec, d: Disk, packId: nat, items: seq<Item>, pending: set<string>, entries: RegistryDisk.Entries, ops: seq<Op>)
    requires packId !in d.packs && SoundItems(c, items) && pending <= HashesOf(items)
    requires AllHaveData(c, d, pending, entries, ops)
    ensures AllHaveData(c, Flushed(d, packId, items, |items|), {}, entries, ops)
  {
    forall op | op in ops ensures HasItsData(c, Flushed(d, packId, items, |items|), {}, entries, op) {
      assert HasItsData(c, d, pending, entries, op);
      assert items[..|items|] == items;
      FlushReads(c, d, packId, items, |items|, op.contentHash);
    }
  }

  // ---------------------------------------------------------------- the checkpoint

  class PackCheckpoint {
    const store: ContentStore
    const registry: Registry.FileRegistry
    const logger: Oplog.OperationLogger
    const every: nat
    var since: nat
    ghost var history: iset<Disks>  // every state of the three disks, at and inside each disk call

    /** Sound components over a durable disk, with an idle log. */
    static ghost predicate Startable(store: ContentStore, registry: Registry.FileRegistry, logger: Oplog.OperationLogger)
      reads store, registry, logger
    {
      && store.Valid() && registry.Inv() && logger.flight.Idle? && logger.persistQueue == []
      && AllHaveData(store.codec, store.disk, store.pending, registry.entries, logger.pendingOps)
      && Durable(store.codec, Disks(store.disk, registry.disk, logger.file))
    }

    /** `before` are the disk states on the way here. */
    constructor (
      store: ContentStore, registry: Registry.FileRegistry, logger: Oplog.OperationLogger, every: nat, ghost before: iset<Disks>)
      ensures this.store == store && this.registry == registry && this.logger == logger && this.every == every
      ensures since == 0 && history == before + iset{Disks(store.disk, registry.disk, logger.file)}
      ensures Startable(store, registry, logger) && (forall x :: x in before ==> Durable(store.codec, x)) ==>
        (Ready() <==> Oplog.Inv(logger.State())) && forall x :: x in history ==> Durable(store.codec, x)
    {
      this.store, this.registry, this.logger, this.every := store, registry, logger, every;
      since, history := 0, before + iset{Disks(store.disk, registry.disk, logger.file)};
    }

    ghost function Written(): Book
      reads registry, logger
    {
      Book(registry.entries, registry.pathIndex, logger.pendingOps)
    }

    /** How many pending operations the journal does not hold. */
    ghost function Unsaved(): int
      reads logger
    {
      |logger.pendingOps| - |Oplog.Readable(logger.file)|
    }

    ghost function Now(): Disks
      reads this, store, registry, logger
    {
      Disks(store.disk, registry.disk, logger.file)
    }

    /** The three components are sound, the log is idle, and every disk state so far was durable. */
    ghost predicate Ready()
      reads this, store, registry, logger
    {
      && store.Valid() && registry.Inv()
      && Oplog.Inv(logger.State()) && logger.flight.Idle? && logger.persistQueue == []
      && AllHaveData(store.codec, store.disk, store.pending, registry.entries, logger.pendingOps)
      && Durable(store.codec, Now())
      && forall d :: d in history ==> Durable(store.codec, d)
    }

    /** As `Ready`, with the registry's autosave suspended. */
    ghost predicate Sound()
      reads this, store, registry, logger
    {
      Ready() && registry.deferSave
    }

    /** Flush the pack. */
    method FlushBlobs()
      requires Sound()
      modifies this`history, store
      ensures Sound() && store.pending == {}
    {
      ghost var before := Now();
      ghost var packs, packId, items, waiting := store.disk, store.nextPackId, store.packBuffer, store.pending;
      store.seen := iset{store.disk};
      store.FlushPack();
      if items != [] {
        FlushBacksAll(store.codec, packs, packId, items, waiting, registry.entries, logger.pendingOps);
      } else {
        assert waiting == {};
      }
      forall x | x in store.seen ensures Durable(store.codec, before.(packs := x)) {
        assert KeepingAt(store.codec, packs, iset{packs}, store.seen, x);
        PacksKeepDurable(store.codec, before, x);
      }
      PacksKeepDurable(store.codec, before, store.disk);
      history := history + iset x | x in store.seen :: before.(packs := x);
    }

    /** Append the dirty registry entries. */
    method FlushRegistry()
      requires Sound() && store.pending == {}
      modifies this`history, registry
      ensures Sound() && store.pending == {} && registry.dirtyIds == {}
      ensures RegistryDisk.Loaded(registry.disk) == registry.entries
      ensures registry.entries == old(registry.entries) && registry.pathIndex == old(registry.pathIndex)
    {
      ghost var before := Now();
      registry.seen := iset{registry.disk};
      JournalIsTracked(store.codec, store.disk, store.pending, registry.entries, logger.State());
      registry.Flush();
      forall y | y in registry.seen ensures Durable(store.codec, before.(registry := y)) {
        RegistryDisk.BetweenEnds(RegistryDisk.Loaded(before.registry), registry.entries);
        assert Registry.BetweenSince(iset{before.registry}, registry.seen, RegistryDisk.Loaded(before.registry), registry.entries, y);
        RegistryKeepsDurable(store.codec, before, registry.entries, y);
      }
      history := history + iset y | y in registry.seen :: before.(registry := y);
      assert registry.disk in registry.seen;
    }

    /** Append the log's unwritten tail: ask for it, and let it run to its end. */
    method AppendLog()
      requires Sound() && store.pending == {} && RegistryDisk.Loaded(registry.disk) == registry.entries
      modifies this`history, logger
      ensures Sound() && Oplog.Readable(logger.file) == logger.pendingOps == old(logger.pendingOps)
      ensures logger.issued == old(logger.issued)
    {
      ghost var before := Now();
      logger.AppendOpLog();
      ghost var queued := logger.State();
      logger.BeginPersist();
      EndAppend(before, queued);
    }

    /** The append in flight reaches the disk, whole or torn, and the log moves its mark. */
    method EndAppend(ghost before: Disks, ghost queued: Oplog.Log)
      requires store.Valid() && registry.Inv() && registry.deferSave && store.pending == {}
      requires RegistryDisk.Loaded(registry.disk) == registry.entries && before == Now() && Durable(store.codec, before)
      requires AllHaveData(store.codec, store.disk, store.pending, registry.entries, logger.pendingOps)
      requires forall d :: d in history ==> Durable(store.codec, d)
      requires Oplog.Inv(queued) && queued.flight.Idle? && queued.queue == [Oplog.AppendWork]
      requires Oplog.Inv(logger.State()) && logger.State() == Oplog.Step(queued, Oplog.Begin)
      modifies this`history, logger
      ensures Sound() && Oplog.Readable(logger.file) == logger.pendingOps == old(logger.pendingOps)
      ensures logger.issued == old(logger.issued)
    {
      ghost var s := logger.State();
      NoteTornAppends(before, s);
      WriteDelta(before, s);
      SettleAppend(queued);
      WrittenOut(logger.State());
    }

    /** The log moves its mark over what was written. */
    method SettleAppend(ghost queued: Oplog.Log)
      requires Oplog.Inv(queued) && queued.flight.Idle? && queued.queue == [Oplog.AppendWork]
      requires Oplog.Inv(logger.State()) && logger.State() == Oplog.Step(Oplog.Step(queued, Oplog.Begin), Oplog.Write)
      modifies logger
      ensures Oplog.Inv(logger.State()) && logger.flight.Idle? && logger.persistQueue == []
      ensures logger.persistedCount == |logger.pendingOps| && logger.pendingOps == old(logger.pendingOps)
      ensures logger.file == old(logger.file) && logger.issued == old(logger.issued)
    {
      Oplog.PersistNextKeeps(queued);
      Oplog.WriteKeepsPending(Oplog.Step(queued, Oplog.Begin));
      logger.FinishPersist();
    }

    /** The whole append reaches the disk. */
    method WriteDelta(ghost before: Disks, ghost s: Oplog.Log)
      requires Oplog.Inv(s) && s == logger.State() && s.flight == Oplog.Appending(Oplog.Tail(s.pending, s.persisted), false)
      requires before == Now() && Durable(store.codec, before) && RegistryDisk.Loaded(registry.disk) == registry.entries
      requires AllHaveData(store.codec, store.disk, {}, registry.entries, logger.pendingOps)
      requires forall d :: d in history ==> Durable(store.codec, d)
      modifies this`history, logger
      ensures logger.State() == Oplog.Step(s, Oplog.Write) && Oplog.Inv(logger.State())
      ensures Durable(store.codec, Now()) && forall d :: d in history ==> Durable(store.codec, d)
    {
      logger.DiskWrite();
      WrittenIsDurable(store.codec, before, {}, registry.entries, s, logger.file);
      history := history + iset{Now()};
    }

    /** Every state a crash can leave of the append in flight joins the history. */
    ghost method NoteTornAppends(before: Disks, s: Oplog.Log)
      requires Durable(store.codec, before) && before.journal == s.file && before.packs == store.disk
      requires AllHaveData(store.codec, store.disk, {}, RegistryDisk.Loaded(before.registry), s.pending)
      requires Oplog.Inv(s) && s.flight == Oplog.Appending(Oplog.Tail(s.pending, s.persisted), false)
      requires forall d :: d in history ==> Durable(store.codec, d)
      modifies this`history
      ensures forall d :: d in history ==> Durable(store.codec, d)
      ensures forall z :: Oplog.CrashFile(s, z) ==> before.(journal := z) in history
    {
      forall z | Oplog.CrashFile(s, z) ensures Durable(store.codec, before.(journal := z)) {
        CrashIsDurable(store.codec, before, {}, RegistryDisk.Loaded(before.registry), s, z);
      }
      history := history + iset z | Oplog.CrashFile(s, z) :: before.(journal := z);
    }

    /** One processed item; a checkpoint once `every` have accrued. */
    method Tick(changed: bool)
      requires Sound()
      modifies this`since, this`history, store, registry, logger
      ensures Sound() && Written() == old(Written()) && logger.issued == old(logger.issued)
      ensures if old(since) + 1 < every then since == old(since) + 1 && Unsaved() == old(Unsaved())
        else since == 0 && store.pending == {} && RegistryDisk.Loaded(registry.disk) == registry.entries && (changed ==> Unsaved() == 0)
    {
      since := since + 1;
      if since >= every {
        Flush(false, changed);
      }
    }

    /** Blobs first, then the registry, then the log. */
    method Flush(keepWarm: bool, changed: bool)
      requires Sound()
      modifies this`since, this`history, store, registry, logger
      ensures Sound() && since == 0 && store.pending == {} && RegistryDisk.Loaded(registry.disk) == registry.entries
      ensures logger.pendingOps == old(logger.pendingOps) && logger.issued == old(logger.issued)
      ensures changed ==> Oplog.Readable(logger.file) == logger.pendingOps
      ensures registry.entries == old(registry.entries) && registry.pathIndex == old(registry.pathIndex)
    {
      FlushBlobs();
      FlushRegistry();
      if changed {
        AppendLog();
      }
      if !keepWarm {
        store.ClearMemCache();
      }
      since := 0;
    }
  }

  /** With nothing in flight the journal is part of the pending log, so its files are tracked. */
  lemma JournalIsTracked(
    c: Codec, packs: Disk, pending: set<string>, entries: RegistryDisk.Entries, s: Oplog.Log)
    requires Oplog.Inv(s) && s.flight.Idle? && s.queue == []
    requires AllHaveData(c, packs, pending, entries, s.pending)
    ensures forall op :: op in Oplog.Readable(s.file) && CarriesContent(op) ==> op.fileId in entries
  {
    forall op | op in Oplog.Readable(s.file) && CarriesContent(op) ensures op.fileId in entries {
      assert op in s.pending[..s.persisted];
      assert HasItsData(c, packs, pending, entries, op);
    }
  }

  /** With every blob and entry durable, each pending operation is backed. */
  lemma PendingIsBacked(c: Codec, d: Disks, entries: RegistryDisk.Entries, ops: seq<Op>)
    requires AllHaveData(c, d.packs, {}, entries, ops) && RegistryDisk.Loaded(d.registry) == entries
    ensures forall op :: op in ops ==> BackedUp(c, d.packs, d.registry, op)
  {
    forall op | op in ops ensures BackedUp(c, d.packs, d.registry, op) {
      assert HasItsData(c, d.packs, {}, entries, op);
    }
  }

  lemma TailIsPending(s: Oplog.Log, n: nat)
    ensures forall op :: op in Oplog.Tail(s.pending, n) ==> op in s.pending
  {
  }

  lemma CrashIsDurable(
    c: Codec, d: Disks, pending: set<string>, entries: RegistryDisk.Entries, s: Oplog.Log, z: Oplog.File)
    requires Oplog.Inv(s) && s.flight == Oplog.Appending(Oplog.Tail(s.pending, s.persisted), false)
    requires Oplog.CrashFile(s, z) && d.journal == s.file && Durable(c, d)
    requires pending == {} && AllHaveData(c, d.packs, pending, entries, s.pending)
    requires RegistryDisk.Loaded(d.registry) == entries
    ensures Durable(c, d.(journal := z))
  {
    var k := Oplog.CrashRecovers(s, z);
    PendingIsBacked(c, d, entries, s.pending);
    TailIsPending(s, s.persisted);
    JournalKeepsDurable(c, d, z, s.flight.delta, k);
  }

  lemma WrittenIsDurable(
    c: Codec, d: Disks, pending: set<string>, entries: RegistryDisk.Entries, s: Oplog.Log, z: Oplog.File)
    requires Oplog.Inv(s) && s.flight == Oplog.Appending(Oplog.Tail(s.pending, s.persisted), false)
    requires z == Oplog.AppendTo(s.file, s.flight.delta) && d.journal == s.file && Durable(c, d)
    requires pending == {} && AllHaveData(c, d.packs, pending, entries, s.pending)
    requires RegistryDisk.Loaded(d.registry) == entries
    ensures Durable(c, d.(journal := z))
  {
    var delta := s.flight.delta;
    if delta != [] {
      Oplog.AppendReadsBack(s.file, delta);
      assert delta[..|delta|] == delta;
      PendingIsBacked(c, d, entries, s.pending);
      TailIsPending(s, s.persisted);
      JournalKeepsDurable(c, d, z, delta, |delta|);
    }
  }

  lemma WrittenOut(s: Oplog.Log)
    requires Oplog.Inv(s) && s.flight.Idle? && s.queue == [] && s.persisted == |s.pending|
    ensures Oplog.Readable(s.file) == s.pending
  {
    assert s.pending[..s.persisted] == s.pending;
  }

  // ------------------------------------------------------------------- the capture

  lemma MoreStillHave(
    c: Codec, packs: Disk, pending: set<string>, pending': set<string>, entries: RegistryDisk.Entries,
    entries': RegistryDisk.Entries, ops: seq<Op>)
    requires AllHaveData(c, packs, pending, entries, ops)
    requires pending <= pending' && entries.Keys <= entries'.Keys
    ensures AllHaveData(c, packs, pending', entries', ops)
  {
    forall op | op in ops ensures HasItsData(c, packs, pending', entries', op) {
      assert HasItsData(c, packs, pending, entries, op);
      assert op.fileId in entries.Keys ==> op.fileId in entries'.Keys;
    }
  }

  method StoreBlob(cp: PackCheckpoint, hash: string, content: Bytes)
    requires cp.Sound() && hash == cp.store.codec.hash(content)
    modifies cp.store
    ensures cp.Sound() && (hash in cp.store.pending || Reads(cp.store.codec, cp.store.disk, hash).Some?)
  {
    ghost var pending, packs := cp.store.pending, cp.store.disk;
    cp.store.PutBuffered(hash, content);
    MoreStillHave(cp.store.codec, packs, pending, cp.store.pending, cp.registry.entries, cp.registry.entries,
      cp.logger.pendingOps);
  }

  method PushOp(cp: PackCheckpoint, op: Op)
    requires cp.Sound() && op.id !in cp.logger.issued
    requires HasItsData(cp.store.codec, cp.store.disk, cp.store.pending, cp.registry.entries, op)
    modifies cp.logger
    ensures cp.Sound() && cp.logger.pendingOps == old(cp.logger.pendingOps) + [op]
    ensures cp.logger.issued == old(cp.logger.issued) + {op.id} && cp.logger.file == old(cp.logger.file)
  {
    cp.logger.PushOp(op);
  }

  /** A registry change that drops no id keeps everything sound while saves are suspended. */
  lemma RegistryChanged(cp: PackCheckpoint, entries0: RegistryDisk.Entries)
    requires cp.store.Valid() && cp.registry.Inv() && cp.registry.deferSave
    requires Oplog.Inv(cp.logger.State()) && cp.logger.flight.Idle? && cp.logger.persistQueue == []
    requires AllHaveData(cp.store.codec, cp.store.disk, cp.store.pending, entries0, cp.logger.pendingOps)
    requires Durable(cp.store.codec, cp.Now()) && forall d :: d in cp.history ==> Durable(cp.store.codec, d)
    requires entries0.Keys <= cp.registry.entries.Keys
    ensures cp.Sound()
  {
    MoreStillHave(cp.store.codec, cp.store.disk, cp.store.pending, cp.store.pending, entries0,
      cp.registry.entries, cp.logger.pendingOps);
  }

  /** The registry takes a captured content; the id it goes under. */
  method TrackContent(cp: PackCheckpoint, ref: Ref, hash: string, m: Mint) returns (id: string)
    requires cp.Sound() && m.uuid != "" && m.uuid !in cp.registry.entries
    modifies cp.registry
    ensures cp.Sound()
    ensures var e := TakenUp(old(cp.registry.Tracked(ref.path)), ref, hash, m);
      && id == e.id && cp.registry.entries == old(cp.registry.entries)[id := e]
      && cp.registry.pathIndex == old(cp.registry.pathIndex)[ref.path := id]
  {
    ghost var entries0 := cp.registry.entries;
    var tracked := cp.registry.Tracked(ref.path);
    assert Registry.CoherentAt(entries0, cp.registry.pathIndex, ref.path);
    if tracked.None? {
      id := cp.registry.RegisterFile(ref.path, m.hlc, hash, Some(ref.stat), m.uuid);
    } else {
      id := tracked.value.id;
      cp.registry.UpdateContentHash(ref.path, hash, m.hlc, Some(ref.stat));
    }
    RegistryChanged(cp, entries0);
  }

  method MoveHead(cp: PackCheckpoint, id: string, opId: string)
    requires cp.Sound() && id in cp.registry.entries
    modifies cp.registry
    ensures cp.Sound() && cp.registry.pathIndex == old(cp.registry.pathIndex)
    ensures cp.registry.entries == old(cp.registry.entries)[id := old(cp.registry.entries)[id].(headVersionId := Some(opId))]
  {
    ghost var entries0 := cp.registry.entries;
    cp.registry.SetHeadVersion(id, opId);
    RegistryChanged(cp, entries0);
  }

  /** New content: the blob into the buffer, the entry, the operation, and the head moves to it. */
  method CaptureContent(cp: PackCheckpoint, rules: Rules, ref: Ref, m: Mint)
    requires cp.Sound() && rules.hash == cp.store.codec.hash && Changed(rules, cp.registry.Tracked(ref.path), ref)
    requires m.uuid != "" && m.uuid !in cp.registry.entries && m.opId !in cp.logger.issued
    modifies cp.store, cp.registry, cp.logger
    ensures cp.Sound() && cp.Written() == CaptureOne(rules, old(cp.Written()), ref, m)
    ensures cp.logger.issued == old(cp.logger.issued) + {m.opId} && cp.Unsaved() == old(cp.Unsaved()) + 1
  {
    ghost var b0 := cp.Written();
    var hash := rules.hash(ref.content.value);
    CaptureOneIs(rules, b0, ref, m, TakenUp(TrackedAt(b0, ref.path), ref, hash, m));
    var op := CapturedOp(cp.registry.Tracked(ref.path), m, hash);
    StoreBlob(cp, hash, ref.content.value);
    var id := TrackContent(cp, ref, hash, m);
    PushOp(cp, op);
    MoveHead(cp, id, op.id);
  }

  /** One listed file that is neither excluded nor too large; says whether an operation was emitted. */
  method CaptureFile(cp: PackCheckpoint, rules: Rules, ref: Ref, m: Mint) returns (captured: bool)
    requires cp.Sound() && rules.hash == cp.store.codec.hash
    requires m.uuid != "" && m.uuid !in cp.registry.entries && m.opId !in cp.logger.issued
    modifies cp.store, cp.registry, cp.logger
    ensures cp.Sound() && cp.Written() == CaptureOne(rules, old(cp.Written()), ref, m)
    ensures captured <==> Changed(rules, old(cp.registry.Tracked(ref.path)), ref)
    ensures cp.logger.issued <= old(cp.logger.issued) + {m.opId}
    ensures cp.Unsaved() == old(cp.Unsaved()) + if captured then 1 else 0
  {
    captured := false;
    var tracked := cp.registry.Tracked(ref.path);
    if Gated(tracked, ref) || ref.content.None? {
      return;
    }
    var hash := rules.hash(ref.content.value);
    if tracked.Some? && tracked.value.contentHash == hash {
      if tracked.value.stat != Some(ref.stat) {
        ghost var entries0 := cp.registry.entries;
        assert Registry.CoherentAt(entries0, cp.registry.pathIndex, ref.path);
        cp.registry.RecordStat(ref.path, ref.stat);
        RegistryChanged(cp, entries0);
      }
      return;
    }
    CaptureContent(cp, rules, ref, m);
    captured := true;
  }

  // -------------------------------------------------------------- files gone offline

  /** Bury one entry whose file is gone; a placeholder that was never captured emits nothing. */
  method BuryFile(cp: PackCheckpoint, e: FileEntry, m: Mint) returns (emitted: bool)
    requires cp.Sound() && e.id in cp.registry.entries && m.opId !in cp.logger.issued
    modifies cp.registry, cp.logger
    ensures cp.Sound() && cp.Written() == BuryOne(old(cp.Written()), e, m) && emitted == (e.contentHash != "")
    ensures cp.logger.issued <= old(cp.logger.issued) + {m.opId}
    ensures cp.registry.entries.Keys == old(cp.registry.entries).Keys
  {
    ghost var entries0 := cp.registry.entries;
    assert Registry.CoherentAt(entries0, cp.registry.pathIndex, e.path);
    cp.registry.MarkDeleted(e.path, m.hlc);
    RegistryChanged(cp, entries0);
    emitted := e.contentHash != "";
    if emitted {
      PushOp(cp, DeleteOp(e, m));
      MoveHead(cp, e.id, m.opId);
    }
  }

  method BuryNext(
    cp: PackCheckpoint, e: FileEntry, mint: nat -> Mint, n: nat, ghost b0: Book, ghost gone: set<string>, ghost order0: seq<string>)
    returns (emitted: bool, ghost order: seq<string>)
    requires BuriedSoFar(cp, mint, n, b0, gone, order0) && e.id in b0.entries && b0.entries[e.id] == e && e.id !in gone
    modifies cp.registry, cp.logger
    ensures BuriedSoFar(cp, mint, n + 1, b0, gone + {e.id}, order)
    ensures order == if emitted then order0 + [e.id] else order0
  {
    ghost var issued, entries := cp.logger.issued, cp.registry.entries;
    assert Unused(mint, n, issued, entries);
    BuryingNext(b0, cp.Written(), gone, order0, e.id, mint(n));
    emitted := BuryFile(cp, e, mint(n));
    order := if emitted then order0 + [e.id] else order0;
    SupplyNext(mint, n, issued, entries, cp.logger.issued, cp.registry.entries);
  }

  /** Delete detection, unless nothing was listed while entries are still tracked. */
  method BuryMissing(cp: PackCheckpoint, rules: Rules, onDisk: set<string>, mint: nat -> Mint, n0: nat)
    returns (changed: bool, n: nat)
    requires cp.Sound() && Supply(mint, n0, cp.logger.issued, cp.registry.entries)
    modifies cp.registry, cp.logger
    ensures cp.Sound() && n0 <= n && Finished(rules, old(cp.Written()), cp.Written(), onDisk)
    ensures changed <==> cp.logger.pendingOps != old(cp.logger.pendingOps)
  {
    changed, n := false, n0;
    ghost var b0 := cp.Written();
    var active := ActiveEntries(cp.registry.entries, rules.excluded);
    ActiveIds(rules, b0, onDisk);
    if onDisk == {} && active != map[] {
      return;
    }
    ghost var gone: set<string>, order: seq<string> := {}, [];
    BuryingStarts(b0);
    var todo := set id | id in active && active[id].path !in onDisk;
    ghost var missed := todo;
    while todo != {}
      invariant todo <= missed && n0 <= n && changed == (order != [])
      invariant BuriedSoFar(cp, mint, n, b0, missed - todo, order)
      decreases todo
    {
      var id :| id in todo;
      var emitted;
      assert missed - (todo - {id}) == (missed - todo) + {id};
      emitted, order := BuryNext(cp, active[id], mint, n, b0, missed - todo, order);
      todo := todo - {id};
      n := n + 1;
      changed := changed || emitted;
    }
    assert missed - {} == missed;
  }

  /** Part way through the burials. */
  ghost predicate BuriedSoFar(cp: PackCheckpoint, mint: nat -> Mint, n: nat, b0: Book, gone: set<string>, order: seq<string>)
    reads cp, cp.store, cp.registry, cp.logger
  {
    && cp.Sound() && Supply(mint, n, cp.logger.issued, cp.registry.entries)
    && Orderly(b0) && Burying(b0, cp.Written(), gone, order)
  }

  // ------------------------------------------------------------------- the whole pass

  /** Autosave comes back, and the journal is folded into the snapshot. */
  method FinishCapture(cp: PackCheckpoint)
    requires cp.Sound()
    modifies cp`history, cp.registry
    ensures cp.Ready() && !cp.registry.deferSave && cp.Written() == old(cp.Written())
  {
    cp.registry.ResumeSaves();
    FoldRegistry(cp);
  }

  method FoldRegistry(cp: PackCheckpoint)
    requires cp.Ready() && !cp.registry.deferSave
    modifies cp`history, cp.registry
    ensures cp.Ready() && !cp.registry.deferSave && cp.Written() == old(cp.Written())
  {
    ghost var before, index := cp.Now(), cp.registry.pathIndex;
    cp.registry.seen := iset{cp.registry.disk};
    JournalIsTracked(cp.store.codec, cp.store.disk, cp.store.pending, cp.registry.entries, cp.logger.State());
    var dropped := cp.registry.Compact(None, None);
    UnindexedNone(index);
    forall y | y in cp.registry.seen ensures Durable(cp.store.codec, before.(registry := y)) {
      RegistryDisk.BetweenEnds(RegistryDisk.Loaded(before.registry), cp.registry.entries);
      assert Registry.BetweenSince(iset{before.registry}, cp.registry.seen, RegistryDisk.Loaded(before.registry),
        cp.registry.entries, y);
      RegistryKeepsDurable(cp.store.codec, before, cp.registry.entries, y);
    }
    cp.history := cp.history + iset y | y in cp.registry.seen :: before.(registry := y);
  }

  lemma UnindexedNone(pathIndex: map<string, string>)
    ensures Registry.Unindexed(pathIndex, {}) == pathIndex
  {
  }

  /** One file of the listing: excluded and oversize files are passed over, the latter still count as there. */
  method CaptureListed(
    cp: PackCheckpoint, rules: Rules, ref: Ref, mint: nat -> Mint, n: nat, onDisk0: set<string>, changed0: bool)
    returns (onDisk: set<string>, changed: bool)
    requires cp.Sound() && rules.hash == cp.store.codec.hash && Supply(mint, n, cp.logger.issued, cp.registry.entries)
    modifies cp`since, cp`history, cp.store, cp.registry, cp.logger
    ensures cp.Sound() && Supply(mint, n + 1, cp.logger.issued, cp.registry.entries)
    ensures cp.Written() == CaptureRef(rules, old(cp.Written()), ref, mint(n))
    ensures onDisk == onDisk0 + if rules.excluded(ref.path) then {} else {ref.path}
    ensures changed == (changed0 || cp.logger.pendingOps != old(cp.logger.pendingOps))
    ensures Bounded(cp.every, old(cp.since), old(cp.Unsaved()), cp.since, cp.Unsaved())
  {
    onDisk, changed := onDisk0, changed0;
    if rules.excluded(ref.path) {
      SupplyNext(mint, n, cp.logger.issued, cp.registry.entries, cp.logger.issued, cp.registry.entries);
      return;
    }
    onDisk := onDisk + {ref.path};
    if rules.tooLarge(ref.stat.size) {
      SupplyNext(mint, n, cp.logger.issued, cp.registry.entries, cp.logger.issued, cp.registry.entries);
      return;
    }
    var captured := CaptureAndTick(cp, rules, ref, mint, n);
    changed := changed || captured;
  }

  /** Operations pass unsaved only as they count towards the next checkpoint, and that is never overdue. */
  predicate Bounded(every: nat, since0: nat, unsaved0: int, since: nat, unsaved: int) {
    && (unsaved <= since || unsaved - since <= unsaved0 - since0)
    && (since < Max(every, 1) || since == since0)
  }

  method CaptureAndTick(cp: PackCheckpoint, rules: Rules, ref: Ref, mint: nat -> Mint, n: nat) returns (captured: bool)
    requires cp.Sound() && rules.hash == cp.store.codec.hash && Supply(mint, n, cp.logger.issued, cp.registry.entries)
    modifies cp`since, cp`history, cp.store, cp.registry, cp.logger
    ensures cp.Sound() && Supply(mint, n + 1, cp.logger.issued, cp.registry.entries)
    ensures cp.Written() == CaptureOne(rules, old(cp.Written()), ref, mint(n))
    ensures captured == (cp.logger.pendingOps != old(cp.logger.pendingOps))
    ensures Bounded(cp.every, old(cp.since), old(cp.Unsaved()), cp.since, cp.Unsaved())
  {
    ghost var issued, entries := cp.logger.issued, cp.registry.entries;
    assert Unused(mint, n, issued, entries);
    captured := CaptureFile(cp, rules, ref, mint(n));
    SupplyNext(mint, n, issued, entries, cp.logger.issued, cp.registry.entries);
    if captured {
      cp.Tick(true);
    }
  }

  /** Where the walk over `n` files ends. */
  function StopAt(n: nat, abortAt: Option<nat>): (k: nat)
    ensures k <= n
  {
    if abortAt.Some? && abortAt.value < n then abortAt.value else n
  }

  lemma MoreToWalk(n: nat, abortAt: Option<nat>, k: nat)
    requires k <= StopAt(n, abortAt) && k < n && abortAt != Some(k)
    ensures k + 1 <= StopAt(n, abortAt)
  {
  }

  /** The walk over the listing, up to its end or to the abort. */
  method CaptureLive(
    cp: PackCheckpoint, rules: Rules, files: seq<Ref>, abortAt: Option<nat>, mint: nat -> Mint, ghost began: Beginning)
    returns (k: nat, onDisk: set<string>, changed: bool)
    requires InListing(cp, rules, files, mint, 0, began, {}, false)
    modifies cp`since, cp`history, cp.store, cp.registry, cp.logger
    ensures k == StopAt(|files|, abortAt)
    ensures InListing(cp, rules, files, mint, k, began, onDisk, changed)
  {
    k, onDisk, changed := 0, {}, false;
    while k < |files| && abortAt != Some(k)
      invariant k <= StopAt(|files|, abortAt) && InListing(cp, rules, files, mint, k, began, onDisk, changed)
    {
      MoreToWalk(|files|, abortAt, k);
      onDisk, changed := CaptureNext(cp, rules, files, mint, k, began, onDisk, changed);
      k := k + 1;
    }
  }

  /** Where a walk began: the books, the count since the last checkpoint, and what the journal did not hold. */
  datatype Beginning = Beginning(book: Book, since: nat, unsaved: int)

  ghost function Began(cp: PackCheckpoint): Beginning
    reads cp, cp.registry, cp.logger
  {
    Beginning(cp.Written(), cp.since, cp.Unsaved())
  }

  /** After `k` files of the walk. */
  ghost predicate InListing(
    cp: PackCheckpoint, rules: Rules, files: seq<Ref>, mint: nat -> Mint, k: nat, began: Beginning, onDisk: set<string>, changed: bool)
    requires k <= |files|
    reads cp, cp.store, cp.registry, cp.logger
  {
    match began
    case Beginning(book, since, unsaved) =>
      && cp.Sound() && rules.hash == cp.store.codec.hash && Supply(mint, k, cp.logger.issued, cp.registry.entries)
      && onDisk == OnDisk(rules, files, k) && Reached(rules, book, files, mint, k, cp.Written())
      && OnlyContent(book.ops, cp.logger.pendingOps) && changed == (cp.logger.pendingOps != book.ops)
      && Bounded(cp.every, since, unsaved, cp.since, cp.Unsaved())
  }

  lemma WalkStarts(cp: PackCheckpoint, rules: Rules, files: seq<Ref>, mint: nat -> Mint)
    requires cp.Sound() && rules.hash == cp.store.codec.hash && Supply(mint, 0, cp.logger.issued, cp.registry.entries)
    ensures InListing(cp, rules, files, mint, 0, Began(cp), {}, false)
  {
    ReachedStart(rules, cp.Written(), files, mint);
  }

  method CaptureNext(
    cp: PackCheckpoint, rules: Rules, files: seq<Ref>, mint: nat -> Mint, k: nat, ghost began: Beginning, onDisk0: set<string>,
    changed0: bool)
    returns (onDisk: set<string>, changed: bool)
    requires k < |files| && InListing(cp, rules, files, mint, k, began, onDisk0, changed0)
    modifies cp`since, cp`history, cp.store, cp.registry, cp.logger
    ensures InListing(cp, rules, files, mint, k + 1, began, onDisk, changed)
  {
    RefOps(rules, cp.Written(), files[k], mint(k));
    OnDiskNext(rules, files, k);
    ReachedNext(rules, began.book, files, mint, k, cp.Written());
    onDisk, changed := CaptureListed(cp, rules, files[k], mint, k, onDisk0, changed0);
  }

  /**
   * The offline capture. At every disk call, and inside every append, each create or update in the
   * durable log names a durably registered file and a durably readable blob. A pass that is not aborted
   * captures every file that was due at its start, and, unless nothing was listed, deletes every live
   * entry that was not; an aborted pass, or an empty listing, emits no delete.
   */
  method CaptureOfflineChanges(cp: PackCheckpoint, rules: Rules, files: seq<Ref>, abortAt: Option<nat>, mint: nat -> Mint)
    returns (aborted: bool, onDisk: set<string>, changed: bool)
    requires cp.Ready() && rules.hash == cp.store.codec.hash && Supply(mint, 0, cp.logger.issued, cp.registry.entries)
    modifies cp`since, cp`history, cp.store, cp.registry, cp.logger
    ensures cp.Ready() && !cp.registry.deferSave
    ensures forall d :: d in cp.history ==> Durable(cp.store.codec, d)
    ensures Passed(rules, old(cp.Written()), cp.Written(), files, abortAt, mint, aborted, onDisk)
    ensures OnlyItsOwn(old(cp.Written()), cp.Written(), aborted, onDisk)
    ensures !aborted ==> onDisk == set j | 0 <= j < |files| && !rules.excluded(files[j].path) :: files[j].path
    ensures !aborted && ListedOnce(rules, files) ==> DidItsWork(rules, old(cp.Written()), files, mint, cp.Written(), onDisk)
    ensures changed ==> Oplog.Readable(cp.logger.file) == cp.logger.pendingOps
    ensures !changed ==> cp.logger.pendingOps == old(cp.logger.pendingOps)
  {
    ghost var b0 := cp.Written();
    SupplyIsFresh(mint, 0, cp.logger.issued, b0);
    aborted, onDisk, changed := CaptureAll(cp, rules, files, abortAt, mint);
    PassIs(rules, b0, cp.Written(), files, abortAt, mint, aborted, onDisk);
  }

  /** What a pass leaves, aborted or not. */
  ghost predicate Passed(
    rules: Rules, b0: Book, b: Book, files: seq<Ref>, abortAt: Option<nat>, mint: nat -> Mint, aborted: bool, onDisk: set<string>)
  {
    && (aborted <==> abortAt.Some? && abortAt.value < |files|)
    && if aborted then b == CaptureUpto(rules, b0, files, mint, abortAt.value)
       else onDisk == OnDisk(rules, files, |files|) && Finished(rules, CaptureUpto(rules, b0, files, mint, |files|), b, onDisk)
  }

  method CaptureAll(cp: PackCheckpoint, rules: Rules, files: seq<Ref>, abortAt: Option<nat>, mint: nat -> Mint)
    returns (aborted: bool, onDisk: set<string>, changed: bool)
    requires cp.Ready() && rules.hash == cp.store.codec.hash && Supply(mint, 0, cp.logger.issued, cp.registry.entries)
    modifies cp`since, cp`history, cp.store, cp.registry, cp.logger
    ensures cp.Ready() && !cp.registry.deferSave
    ensures Passed(rules, old(cp.Written()), cp.Written(), files, abortAt, mint, aborted, onDisk)
    ensures changed ==> Oplog.Readable(cp.logger.file) == cp.logger.pendingOps
    ensures !changed ==> cp.logger.pendingOps == old(cp.logger.pendingOps)
  {
    cp.registry.SuspendSaves();
    var k;
    WalkStarts(cp, rules, files, mint);
    ghost var b0 := cp.Written();
    k, onDisk, changed := CaptureLive(cp, rules, files, abortAt, mint, Began(cp));
    ReachedIsUpto(rules, b0, files, mint, k, cp.Written());
    aborted := k < |files|;
    if !aborted {
      var buried, n := BuryMissing(cp, rules, onDisk, mint, k);
      changed := changed || buried;
    }
    cp.Flush(true, changed);
    FinishCapture(cp);
  }

  /** The operations a pass adds, and what it does for each file and entry. */
  lemma PassIs(
    rules: Rules, b0: Book, b: Book, files: seq<Ref>, abortAt: Option<nat>, mint: nat -> Mint, aborted: bool, onDisk: set<string>)
    requires Orderly(b0) && FreshIds(mint, 0, b0) && Passed(rules, b0, b, files, abortAt, mint, aborted, onDisk)
    ensures OnlyItsOwn(b0, b, aborted, onDisk)
    ensures !aborted && ListedOnce(rules, files) ==> DidItsWork(rules, b0, files, mint, b, onDisk)
  {
    var k := if aborted then abortAt.value else |files|;
    UptoAdds(rules, b0, files, mint, k);
    if !aborted {
      FinishedDeletes(rules, CaptureUpto(rules, b0, files, mint, k), b, onDisk);
      if ListedOnce(rules, files) {
        PassMeans(rules, b0, files, mint, b);
      }
    }
  }

  // ---------------------------------------------------------------- the next session

  const CAPTURE_CHECKPOINT_EVERY: nat := 200

  /** Loading keeps what is durable: the registry reads the same, and the journal holds no other operations. */
  lemma ReopenedIsDurable(c: Codec, d: Disks, registry: RegistryDisk.Files, journal: Oplog.File)
    requires Durable(c, d) && RegistryDisk.KeyedById(registry.snapshot)
    requires RegistryDisk.Loaded(registry) == RegistryDisk.Loaded(d.registry)
    requires forall op :: op in Oplog.Readable(journal) ==> op in Oplog.Readable(d.journal)
    ensures Durable(c, Disks(d.packs, registry, journal))
  {
    forall op | op in Oplog.Readable(journal) ensures BackedUp(c, d.packs, registry, op) {
      assert BackedUp(c, d.packs, d.registry, op);
    }
  }

  /** Every operation the journal reads as names a loaded file and a readable blob. */
  lemma ReopenedHasItsData(c: Codec, d: Disks, entries: RegistryDisk.Entries, ops: seq<Op>)
    requires Durable(c, d) && entries == RegistryDisk.Loaded(d.registry) && ops == Oplog.FirstOf(Oplog.Readable(d.journal), {})
    ensures forall op :: op in ops ==> op in Oplog.Readable(d.journal)
    ensures AllHaveData(c, d.packs, {}, entries, ops)
  {
    Oplog.FirstOfHeals(Oplog.Readable(d.journal), {});
    forall op | op in ops ensures HasItsData(c, d.packs, {}, entries, op) {
      assert BackedUp(c, d.packs, d.registry, op);
    }
  }

  /** The registry of the next session, and the states its load goes through. */
  method ReopenRegistry(
    codec: Codec, d: Disks, recSize: RegistryDisk.Rec -> nat, snapshotSize: RegistryDisk.Entries -> nat)
    returns (registry: Registry.FileRegistry)
    requires Durable(codec, d)
    ensures fresh(registry) && registry.Inv() && registry.entries == RegistryDisk.Loaded(d.registry)
    ensures RegistryDisk.Loaded(registry.disk) == registry.entries
    ensures forall y :: y in registry.seen ==> Durable(codec, d.(registry := y))
  {
    registry := new Registry.FileRegistry.Load(d.registry, recSize, snapshotSize);
    ghost var m := registry.entries;
    forall y | y in registry.seen ensures Durable(codec, d.(registry := y)) {
      assert Registry.BetweenSince(iset{d.registry}, registry.seen, m, m, y);
      RegistryDisk.BetweenSame(m, RegistryDisk.Loaded(y));
      ReopenedIsDurable(codec, d, y, d.journal);
    }
  }

  /**
   * The next session over whatever a crash left. It is ready for a capture exactly when the journal
   * does not end in a torn line, which loading leaves unless it rewrites the file to drop duplicates;
   * every journalled operation is pending again, and the states the load goes through are durable too.
   */
  method Reopen(
    codec: Codec, budget: nat, d: Disks, recSize: RegistryDisk.Rec -> nat, snapshotSize: RegistryDisk.Entries -> nat)
    returns (cp: PackCheckpoint)
    requires Lawful(codec) && Durable(codec, d)
    ensures fresh(cp) && cp.store.codec == codec && cp.store.disk == d.packs
    ensures cp.registry.entries == RegistryDisk.Loaded(d.registry)
    ensures cp.logger.pendingOps == Oplog.FirstOf(Oplog.Readable(d.journal), {})
    ensures cp.Ready() <==> !Oplog.TornTail(cp.logger.file)
    ensures !Oplog.TornTail(d.journal) ==> cp.Ready()
    ensures forall x :: x in cp.history ==> Durable(codec, x)
  {
    var store := new ContentStore(codec, budget, d.packs);
    var registry := ReopenRegistry(codec, d, recSize, snapshotSize);
    var logger := new Oplog.OperationLogger.Load(d.journal);
    ReopenedHasItsData(codec, d, registry.entries, logger.pendingOps);
    ReopenedIsDurable(codec, d, registry.disk, logger.file);
    ghost var before := iset y | y in registry.seen :: d.(registry := y);
    cp := new PackCheckpoint(store, registry, logger, CAPTURE_CHECKPOINT_EVERY, before);
  }
}
