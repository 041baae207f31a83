/**
 * What an offline capture does to the registry and the log, on values: each listed file in turn, then the
 * entries whose file is gone; and what that means for the files and entries the pass started from.
 */
module CaptureRules {
  import opened Base
  import opened Hlc
  import opened Vault
  import RegistryDisk
  import Registry

  /** A listed file, and its content if it can be read. */
  datatype Ref = Ref(path: string, stat: Stat, content: Option<Bytes>)

  /** What one operation takes from the clock and the id generator. */
  datatype Mint = Mint(hlc: HLC, opId: string, uuid: string)

  /** Which files are passed over, and how content is hashed. */
  datatype Rules = Rules(excluded: string -> bool, tooLarge: nat -> bool, hash: Bytes -> string)

  /** The entries, the path index over them, and the pending operations. */
  datatype Book = Book(entries: RegistryDisk.Entries, pathIndex: map<string, string>, ops: seq<Op>)

  function TrackedAt(b: Book, path: string): Option<FileEntry> {
    if path in b.pathIndex && b.pathIndex[path] != "" then RegistryDisk.At(b.entries, b.pathIndex[path]) else None
  }

  ghost predicate Orderly(b: Book) {
    Registry.Coherent(b.entries, b.pathIndex) && RegistryDisk.KeyedById(b.entries)
  }

  /** The ids of one mint are new. */
  predicate Unused(mint: nat -> Mint, k: nat, issued: set<string>, entries: RegistryDisk.Entries) {
    mint(k).opId !in issued && mint(k).uuid != "" && mint(k).uuid !in entries
  }

  predicate Differ(mint: nat -> Mint, j: nat, k: nat) {
    mint(j).opId != mint(k).opId && mint(j).uuid != mint(k).uuid
  }

  /** Ids still to be drawn are new, and differ from each other. */
  ghost predicate Supply(mint: nat -> Mint, n: nat, issued: set<string>, entries: RegistryDisk.Entries) {
    && (forall k: nat :: n <= k ==> Unused(mint, k, issued, entries))
    && (forall j: nat, k: nat :: n <= j < k ==> Differ(mint, j, k))
  }

  lemma SupplyNext(
    mint: nat -> Mint, n: nat, issued: set<string>, entries: RegistryDisk.Entries, issued': set<string>,
    entries': RegistryDisk.Entries)
    requires Supply(mint, n, issued, entries)
    requires issued' <= issued + {mint(n).opId} && entries'.Keys <= entries.Keys + {mint(n).uuid}
    ensures Supply(mint, n + 1, issued', entries')
  {
    forall k: nat | n + 1 <= k ensures Unused(mint, k, issued', entries') {
      assert Unused(mint, k, issued, entries) && Differ(mint, n, k);
      assert mint(k).uuid !in entries.Keys && mint(k).uuid !in entries'.Keys;
    }
  }

  /** An operation that carries content. */
  predicate CarriesContent(op: Op) {
    op.kind == Create || op.kind == Update
  }

  // ------------------------------------------------------------------ a listed file

  /** The version a new local edit descends from. */
  function HeadOnly(e: FileEntry): seq<string> {
    if e.headVersionId.Some? then [e.headVersionId.value] else []
  }

  /** An untracked file or a placeholder is created; a tracked one is updated from its head. */
  function CapturedOp(tracked: Option<FileEntry>, m: Mint, hash: string): Op {
    match tracked
    case None => Op(m.opId, Create, [], hash, m.uuid)
    case Some(e) =>
      if e.contentHash == "" then Op(m.opId, Create, [], hash, e.id)
      else Op(m.opId, Update, HeadOnly(e), hash, e.id)
  }

  /** The entry that takes a content up: a new one, or the one tracked there, which a tombstone stays. */
  function TakenUp(tracked: Option<FileEntry>, ref: Ref, hash: string, m: Mint): FileEntry {
    match tracked
    case None => FileEntry(m.uuid, ref.path, hash, m.hlc, false, None, None, None, Some(ref.stat))
    case Some(e) => e.(contentHash := hash, hlcTimestamp := m.hlc, stat := Some(ref.stat))
  }

  /** The same, once the operation is its head. */
  function CapturedEntry(tracked: Option<FileEntry>, ref: Ref, hash: string, m: Mint): FileEntry {
    TakenUp(tracked, ref, hash, m).(headVersionId := Some(m.opId))
  }

  /** The stat gate: a tracked file whose time and size are as last recorded is not read again. */
  predicate Gated(tracked: Option<FileEntry>, ref: Ref) {
    tracked.Some? && tracked.value.stat == Some(ref.stat)
  }

  /** The file was read, and its content is not the tracked one. */
  predicate Changed(rules: Rules, tracked: Option<FileEntry>, ref: Ref) {
    && !Gated(tracked, ref) && ref.content.Some?
    && !(tracked.Some? && tracked.value.contentHash == rules.hash(ref.content.value))
  }

  /** What one file leaves: an operation and its entry, a fresher stat, or nothing. */
  function CaptureOne(rules: Rules, b: Book, ref: Ref, m: Mint): Book {
    var tracked := TrackedAt(b, ref.path);
    if Changed(rules, tracked, ref) then
      var hash := rules.hash(ref.content.value);
      var e := CapturedEntry(tracked, ref, hash, m);
      Book(b.entries[e.id := e], b.pathIndex[ref.path := e.id], b.ops + [CapturedOp(tracked, m, hash)])
    else if tracked.Some? && ref.content.Some? && tracked.value.stat != Some(ref.stat) then
      b.(entries := b.entries[tracked.value.id := tracked.value.(stat := Some(ref.stat))])
    else b
  }

  /** A captured file, with the head moved last. */
  lemma CaptureOneIs(rules: Rules, b: Book, ref: Ref, m: Mint, e: FileEntry)
    requires Changed(rules, TrackedAt(b, ref.path), ref) && e == TakenUp(TrackedAt(b, ref.path), ref, rules.hash(ref.content.value), m)
    ensures CaptureOne(rules, b, ref, m) ==
      Book(b.entries[e.id := e][e.id := e.(headVersionId := Some(m.opId))], b.pathIndex[ref.path := e.id],
        b.ops + [CapturedOp(TrackedAt(b, ref.path), m, rules.hash(ref.content.value))])
  {
    assert b.entries[e.id := e][e.id := e.(headVersionId := Some(m.opId))] == b.entries[e.id := e.(headVersionId := Some(m.opId))];
  }

  function CaptureRef(rules: Rules, b: Book, ref: Ref, m: Mint): Book {
    if rules.excluded(ref.path) || rules.tooLarge(ref.stat.size) then b else CaptureOne(rules, b, ref, m)
  }

  /** After the first `k` files. */
  function CaptureUpto(rules: Rules, b: Book, files: seq<Ref>, mint: nat -> Mint, k: nat): Book
    requires k <= |files|
  {
    if k == 0 then b else CaptureRef(rules, CaptureUpto(rules, b, files, mint, k - 1), files[k - 1], mint(k - 1))
  }

  /** The books after each of the first `k` files. */
  ghost predicate Trace(rules: Rules, b: Book, files: seq<Ref>, mint: nat -> Mint, k: nat, books: seq<Book>) {
    && k <= |files| && |books| == k + 1 && books[0] == b
    && forall i :: 0 <= i < k ==> books[i + 1] == CaptureRef(rules, books[i], files[i], mint(i))
  }

  /** `b'` is where the first `k` files lead, one after the other. */
  ghost predicate Reached(rules: Rules, b: Book, files: seq<Ref>, mint: nat -> Mint, k: nat, b': Book) {
    exists books :: Trace(rules, b, files, mint, k, books) && books[k] == b'
  }

  lemma ReachedStart(rules: Rules, b: Book, files: seq<Ref>, mint: nat -> Mint)
    ensures Reached(rules, b, files, mint, 0, b)
  {
    assert Trace(rules, b, files, mint, 0, [b]);
  }

  lemma ReachedNext(rules: Rules, b: Book, files: seq<Ref>, mint: nat -> Mint, k: nat, b': Book)
    requires k < |files| && Reached(rules, b, files, mint, k, b')
    ensures Reached(rules, b, files, mint, k + 1, CaptureRef(rules, b', files[k], mint(k)))
  {
    var books :| Trace(rules, b, files, mint, k, books) && books[k] == b';
    assert Trace(rules, b, files, mint, k + 1, books + [CaptureRef(rules, b', files[k], mint(k))]);
  }

  lemma {:induction false} ReachedIsUpto(rules: Rules, b: Book, files: seq<Ref>, mint: nat -> Mint, k: nat, b': Book)
    requires k <= |files| && Reached(rules, b, files, mint, k, b')
    ensures b' == CaptureUpto(rules, b, files, mint, k)
    decreases k
  {
    if k > 0 {
      var books :| Trace(rules, b, files, mint, k, books) && books[k] == b';
      assert Trace(rules, b, files, mint, k - 1, books[..k]);
      ReachedIsUpto(rules, b, files, mint, k - 1, books[k - 1]);
    }
  }

  /** The paths on disk among the first `k` files. */
  function OnDisk(rules: Rules, files: seq<Ref>, k: nat): set<string>
    requires k <= |files|
  {
    set j | 0 <= j < k && !rules.excluded(files[j].path) :: files[j].path
  }

  /** Ids still to be drawn are not in the registry. */
  ghost predicate FreshIds(mint: nat -> Mint, n: nat, b: Book) {
    Supply(mint, n, {}, b.entries)
  }

  lemma SupplyIsFresh(mint: nat -> Mint, n: nat, issued: set<string>, b: Book)
    requires Supply(mint, n, issued, b.entries)
    ensures FreshIds(mint, n, b)
  {
    forall k: nat | n <= k ensures Unused(mint, k, {}, b.entries) {
      assert Unused(mint, k, issued, b.entries);
    }
  }

  /** An entry at another path is not touched. */
  predicate SameElsewhere(b: Book, b': Book, path: string, p: string, id: string) {
    && (p != path ==> TrackedAt(b', p) == TrackedAt(b, p))
    && (id in b.entries && b.entries[id].path != path ==> id in b'.entries && b'.entries[id] == b.entries[id])
    && (id in b'.entries && b'.entries[id].path != path ==> id in b.entries && b'.entries[id] == b.entries[id])
  }

  lemma TrackedThere(b: Book, path: string)
    requires Orderly(b) && TrackedAt(b, path).Some?
    ensures var e := TrackedAt(b, path).value;
      e.path == path && e.id != "" && e.id in b.entries && b.entries[e.id] == e && path in b.pathIndex && b.pathIndex[path] == e.id
  {
    assert Registry.CoherentAt(b.entries, b.pathIndex, path);
  }

  /** Storing an entry under the path it has keeps the book in order and leaves the rest of it alone. */
  lemma StoredElsewhere(b: Book, e: FileEntry, b': Book)
    requires Orderly(b) && e.id != "" && (e.id in b.entries ==> b.entries[e.id].path == e.path)
    requires b'.entries == b.entries[e.id := e]
    requires b'.pathIndex == b.pathIndex[e.path := e.id]
      || (b'.pathIndex == b.pathIndex && TrackedAt(b, e.path).Some? && TrackedAt(b, e.path).value.id == e.id)
    ensures Orderly(b') && TrackedAt(b', e.path) == Some(e)
    ensures forall p, id :: SameElsewhere(b, b', e.path, p, id)
  {
    if TrackedAt(b, e.path).Some? {
      TrackedThere(b, e.path);
    }
    forall p ensures Registry.CoherentAt(b'.entries, b'.pathIndex, p) {
      assert Registry.CoherentAt(b.entries, b.pathIndex, p);
    }
    forall p, id ensures SameElsewhere(b, b', e.path, p, id) {
      assert Registry.CoherentAt(b.entries, b.pathIndex, p);
    }
  }

  /** One file: its own entry and operation, and nothing else. */
  lemma OneMeans(rules: Rules, b: Book, ref: Ref, m: Mint)
    requires Orderly(b) && m.uuid != "" && m.uuid !in b.entries
    ensures var b', tracked := CaptureOne(rules, b, ref, m), TrackedAt(b, ref.path);
      && Orderly(b') && (forall p, id :: SameElsewhere(b, b', ref.path, p, id))
      && b'.entries.Keys <= b.entries.Keys + {m.uuid}
      && if Changed(rules, tracked, ref) then
           var hash := rules.hash(ref.content.value);
           TrackedAt(b', ref.path) == Some(CapturedEntry(tracked, ref, hash, m)) && b'.ops == b.ops + [CapturedOp(tracked, m, hash)]
         else b'.ops == b.ops
  {
    var b', tracked := CaptureOne(rules, b, ref, m), TrackedAt(b, ref.path);
    if tracked.Some? {
      TrackedThere(b, ref.path);
    }
    if Changed(rules, tracked, ref) {
      StoredElsewhere(b, CapturedEntry(tracked, ref, rules.hash(ref.content.value), m), b');
    } else if tracked.Some? && ref.content.Some? && tracked.value.stat != Some(ref.stat) {
      StoredElsewhere(b, tracked.value.(stat := Some(ref.stat)), b');
    }
  }

  // ---------------------------------------------------------------- all listed files

  /** No path is listed twice, among those looked at. */
  ghost predicate ListedOnce(rules: Rules, files: seq<Ref>) {
    forall i, j :: 0 <= i < j < |files| && !rules.excluded(files[i].path) ==> files[i].path != files[j].path
  }

  /**
   * A file whose content has to go out: looked at, readable, and neither as last recorded by its time and
   * size nor by its hash.
   */
  ghost predicate Wanted(rules: Rules, b: Book, ref: Ref) {
    && !rules.excluded(ref.path) && !rules.tooLarge(ref.stat.size) && ref.content.Some?
    && match TrackedAt(b, ref.path)
       case None => true
       case Some(e) => e.stat != Some(ref.stat) && e.contentHash != rules.hash(ref.content.value)
  }

  /** The operation for a file that had content before is an update of that version, any other a create. */
  ghost predicate Records(op: Op, was: Option<FileEntry>, id: string, hash: string, opId: string) {
    && op.id == opId && op.fileId == id && op.contentHash == hash
    && if was.Some? && was.value.contentHash != "" then
         op.kind == Update && op.parents == (if was.value.headVersionId.Some? then [was.value.headVersionId.value] else [])
       else op.kind == Create && op.parents == []
  }

  /**
   * A wanted file has its operation, and the entry at its path has the content, the stat, and that
   * operation as its head. It keeps the id it had; a tombstone stays one.
   */
  ghost predicate IsCaptured(rules: Rules, b0: Book, b: Book, ref: Ref, m: Mint) {
    Wanted(rules, b0, ref) ==>
      var was, now, hash := TrackedAt(b0, ref.path), TrackedAt(b, ref.path), rules.hash(ref.content.value);
      && now.Some? && now.value.path == ref.path && now.value.contentHash == hash
      && now.value.stat == Some(ref.stat) && now.value.headVersionId == Some(m.opId)
      && now.value.hlcTimestamp == m.hlc
      && (was.None? ==> !now.value.deleted)
      && (was.Some? ==> now.value.id == was.value.id && now.value.deleted == was.value.deleted)
      && exists op :: op in b.ops && Records(op, was, now.value.id, hash, m.opId)
  }

  /** The operations beyond `ops` are those of wanted files, one each, in listing order. */
  ghost predicate OnlyWanted(rules: Rules, b0: Book, files: seq<Ref>, mint: nat -> Mint, k: nat, ops: seq<Op>, at: seq<nat>)
    requires k <= |files|
  {
    && b0.ops <= ops && |ops| == |b0.ops| + |at|
    && (forall p, q :: 0 <= p < q < |at| ==> at[p] < at[q])
    && (forall p: nat :: p < |at| ==> IsOfWanted(rules, b0, files, mint, k, at[p], ops[|b0.ops| + p].id))
  }

  /** The operation id is the one of the `j`-th file, which is wanted. */
  ghost predicate IsOfWanted(rules: Rules, b0: Book, files: seq<Ref>, mint: nat -> Mint, k: nat, j: nat, opId: string)
    requires k <= |files|
  {
    j < k && Wanted(rules, b0, files[j]) && opId == mint(j).opId
  }

  ghost predicate AllWanted(rules: Rules, b0: Book, files: seq<Ref>, mint: nat -> Mint, k: nat, ops: seq<Op>)
    requires k <= |files|
  {
    exists at :: OnlyWanted(rules, b0, files, mint, k, ops, at)
  }

  lemma AllWantedNext(rules: Rules, b0: Book, files: seq<Ref>, mint: nat -> Mint, k: nat, ops: seq<Op>, op: Op)
    requires k < |files| && AllWanted(rules, b0, files, mint, k, ops) && op.id == mint(k).opId
    ensures AllWanted(rules, b0, files, mint, k + 1, ops + if Wanted(rules, b0, files[k]) then [op] else [])
  {
    var at :| OnlyWanted(rules, b0, files, mint, k, ops, at);
    forall p: nat | p < |at| ensures IsOfWanted(rules, b0, files, mint, k + 1, at[p], ops[|b0.ops| + p].id) {
      assert IsOfWanted(rules, b0, files, mint, k, at[p], ops[|b0.ops| + p].id);
    }
    if Wanted(rules, b0, files[k]) {
      OneMoreWanted(rules, b0, files, mint, k, ops, op, at);
    } else {
      NilConcat(ops);
      assert OnlyWanted(rules, b0, files, mint, k + 1, ops, at);
    }
  }

  lemma OneMoreWanted(
    rules: Rules, b0: Book, files: seq<Ref>, mint: nat -> Mint, k: nat, ops: seq<Op>, op: Op, at: seq<nat>)
    requires k < |files| && OnlyWanted(rules, b0, files, mint, k, ops, at)
    requires Wanted(rules, b0, files[k]) && op.id == mint(k).opId
    ensures OnlyWanted(rules, b0, files, mint, k + 1, ops + [op], at + [k])
  {
    var ops', at' := ops + [op], at + [k];
    forall p: nat | p < |at'| ensures IsOfWanted(rules, b0, files, mint, k + 1, at'[p], ops'[|b0.ops| + p].id) {
      assert p < |at| ==> IsOfWanted(rules, b0, files, mint, k, at[p], ops[|b0.ops| + p].id);
    }
    forall p, q | 0 <= p < q < |at'| ensures at'[p] < at'[q] {
      assert IsOfWanted(rules, b0, files, mint, k, at[p], ops[|b0.ops| + p].id);
    }
  }

  /** After `k` files: those to come are held as at the start, those behind are captured, all else is as it was. */
  ghost predicate Halfway(rules: Rules, b0: Book, files: seq<Ref>, mint: nat -> Mint, k: nat, b: Book)
    requires k <= |files|
  {
    && Orderly(b) && FreshIds(mint, k, b) && AllWanted(rules, b0, files, mint, k, b.ops)
    && (forall p :: p !in OnDisk(rules, files, k) ==> TrackedAt(b, p) == TrackedAt(b0, p))
    && (forall id :: id in b0.entries && b0.entries[id].path !in OnDisk(rules, files, k) ==>
          id in b.entries && b.entries[id] == b0.entries[id])
    && (forall id :: id in b.entries && b.entries[id].path !in OnDisk(rules, files, k) ==>
          id in b0.entries && b.entries[id] == b0.entries[id])
    && (forall j :: 0 <= j < k ==> IsCaptured(rules, b0, b, files[j], mint(j)))
  }

  lemma OnDiskNext(rules: Rules, files: seq<Ref>, k: nat)
    requires k < |files|
    ensures OnDisk(rules, files, k + 1) == OnDisk(rules, files, k) + if rules.excluded(files[k].path) then {} else {files[k].path}
  {
  }

  /** A file listed once is not among the paths before it. */
  lemma NotYetListed(rules: Rules, files: seq<Ref>, k: nat)
    requires ListedOnce(rules, files) && k < |files|
    ensures files[k].path !in OnDisk(rules, files, k)
    ensures forall j :: 0 <= j < k && !rules.excluded(files[j].path) ==> files[j].path != files[k].path
  {
  }

  lemma RefMeans(rules: Rules, b: Book, ref: Ref, m: Mint)
    requires Orderly(b) && m.uuid != "" && m.uuid !in b.entries
    ensures var b' := CaptureRef(rules, b, ref, m);
      && Orderly(b') && b'.entries.Keys <= b.entries.Keys + {m.uuid}
      && (forall p, id :: SameElsewhere(b, b', ref.path, p, id))
      && (rules.excluded(ref.path) ==> b' == b)
  {
    OneMeans(rules, b, ref, m);
    if CaptureRef(rules, b, ref, m) == b {
      forall p, id ensures SameElsewhere(b, b, ref.path, p, id) {
      }
    }
  }

  /** A file looked at next leaves those behind it captured. */
  lemma StillCaptured(rules: Rules, b0: Book, b: Book, ref: Ref, m: Mint, earlier: Ref, m': Mint)
    requires IsCaptured(rules, b0, b, earlier, m') && (!rules.excluded(earlier.path) ==> earlier.path != ref.path)
    requires Orderly(b) && m.uuid != "" && m.uuid !in b.entries
    ensures IsCaptured(rules, b0, CaptureRef(rules, b, ref, m), earlier, m')
  {
    RefMeans(rules, b, ref, m);
    OneMeans(rules, b, ref, m);
    assert SameElsewhere(b, CaptureRef(rules, b, ref, m), ref.path, earlier.path, "");
  }

  /** The file itself: captured if it was wanted at the start, as it is held as it was then. */
  lemma NowCaptured(rules: Rules, b0: Book, b: Book, ref: Ref, m: Mint)
    requires TrackedAt(b, ref.path) == TrackedAt(b0, ref.path) && Orderly(b) && m.uuid != "" && m.uuid !in b.entries
    ensures var b', tracked := CaptureRef(rules, b, ref, m), TrackedAt(b0, ref.path);
      && IsCaptured(rules, b0, b', ref, m)
      && b'.ops == b.ops + if Wanted(rules, b0, ref) then [CapturedOp(tracked, m, rules.hash(ref.content.value))] else []
  {
    OneMeans(rules, b, ref, m);
    NilConcat(b.ops);
    if TrackedAt(b, ref.path).Some? {
      TrackedThere(b, ref.path);
    }
    if Wanted(rules, b0, ref) {
      var op := CapturedOp(TrackedAt(b, ref.path), m, rules.hash(ref.content.value));
      assert op in CaptureRef(rules, b, ref, m).ops;
    }
  }

  lemma HalfwayNext(rules: Rules, b0: Book, files: seq<Ref>, mint: nat -> Mint, k: nat, b: Book)
    requires k < |files| && ListedOnce(rules, files) && Halfway(rules, b0, files, mint, k, b)
    ensures Halfway(rules, b0, files, mint, k + 1, CaptureRef(rules, b, files[k], mint(k)))
  {
    var ref, m := files[k], mint(k);
    var b' := CaptureRef(rules, b, ref, m);
    OnDiskNext(rules, files, k);
    assert Unused(mint, k, {}, b.entries);
    RefMeans(rules, b, ref, m);
    SupplyNext(mint, k, {}, b.entries, {}, b'.entries);
    forall p | p !in OnDisk(rules, files, k + 1) ensures TrackedAt(b', p) == TrackedAt(b0, p) {
      assert SameElsewhere(b, b', ref.path, p, "");
    }
    forall id | id in b0.entries && b0.entries[id].path !in OnDisk(rules, files, k + 1)
      ensures id in b'.entries && b'.entries[id] == b0.entries[id]
    {
      assert SameElsewhere(b, b', ref.path, "", id);
    }
    forall id | id in b'.entries && b'.entries[id].path !in OnDisk(rules, files, k + 1)
      ensures id in b0.entries && b'.entries[id] == b0.entries[id]
    {
      assert SameElsewhere(b, b', ref.path, "", id);
    }
    CapturedNext(rules, b0, files, mint, k, b);
  }

  lemma CapturedNext(rules: Rules, b0: Book, files: seq<Ref>, mint: nat -> Mint, k: nat, b: Book)
    requires k < |files| && ListedOnce(rules, files) && Halfway(rules, b0, files, mint, k, b)
    ensures var b' := CaptureRef(rules, b, files[k], mint(k));
      && AllWanted(rules, b0, files, mint, k + 1, b'.ops)
      && forall j :: 0 <= j < k + 1 ==> IsCaptured(rules, b0, b', files[j], mint(j))
  {
    var ref, m := files[k], mint(k);
    NotYetListed(rules, files, k);
    assert Unused(mint, k, {}, b.entries);
    NowCaptured(rules, b0, b, ref, m);
    AllWantedNext(rules, b0, files, mint, k, b.ops, CapturedOp(TrackedAt(b0, ref.path), m,
      if ref.content.Some? then rules.hash(ref.content.value) else ""));
    forall j | 0 <= j < k ensures IsCaptured(rules, b0, CaptureRef(rules, b, ref, m), files[j], mint(j)) {
      StillCaptured(rules, b0, b, ref, m, files[j], mint(j));
    }
  }

  /**
   * A listing without repeated paths: every file wanted when the pass began, and no other, has its one
   * operation, in listing order, and its entry carries the content and that operation as its head.
   */
  lemma {:induction false} EveryChangeIsCaptured(rules: Rules, b0: Book, files: seq<Ref>, mint: nat -> Mint, k: nat)
    requires Orderly(b0) && FreshIds(mint, 0, b0) && ListedOnce(rules, files) && k <= |files|
    ensures Halfway(rules, b0, files, mint, k, CaptureUpto(rules, b0, files, mint, k))
  {
    if k == 0 {
      assert OnlyWanted(rules, b0, files, mint, 0, b0.ops, []);
    } else {
      EveryChangeIsCaptured(rules, b0, files, mint, k - 1);
      HalfwayNext(rules, b0, files, mint, k - 1, CaptureUpto(rules, b0, files, mint, k - 1));
    }
  }

  /** Whatever is listed, the walk over it only adds operations, and only such as carry content. */
  ghost predicate OnlyContent(ops: seq<Op>, more: seq<Op>) {
    ops <= more && forall k :: |ops| <= k < |more| ==> CarriesContent(more[k])
  }

  lemma RefOps(rules: Rules, b: Book, ref: Ref, m: Mint)
    ensures OnlyContent(b.ops, CaptureRef(rules, b, ref, m).ops)
    ensures |CaptureRef(rules, b, ref, m).ops| <= |b.ops| + 1
  {
  }

  // ------------------------------------------------------------------ files gone offline

  /** A delete names the entry's content and descends from its head. */
  function DeleteOp(e: FileEntry, m: Mint): Op {
    Op(m.opId, OpType.Delete, HeadOnly(e), e.contentHash, e.id)
  }

  /** The live entries the capture answers for. */
  function ActiveEntries(entries: RegistryDisk.Entries, excluded: string -> bool): RegistryDisk.Entries {
    map id | id in entries && !entries[id].deleted && !excluded(entries[id].path) :: entries[id]
  }

  /** The entry a path leads to is marked deleted; the one that was missed, if it had content, gets its delete as head. */
  function BuryOne(b: Book, e: FileEntry, m: Mint): Book {
    var found := TrackedAt(b, e.path);
    var entries := if found.None? then b.entries
      else b.entries[found.value.id := found.value.(deleted := true, hlcTimestamp := m.hlc)];
    if e.contentHash == "" || e.id !in entries then b.(entries := entries)
    else Book(entries[e.id := entries[e.id].(headVersionId := Some(m.opId))], b.pathIndex, b.ops + [DeleteOp(e, m)])
  }

  /** The operation deletes the version an entry is at. */
  predicate DeletesEntry(op: Op, e: FileEntry) {
    && op.kind == OpType.Delete && op.fileId == e.id && op.contentHash == e.contentHash
    && op.parents == if e.headVersionId.Some? then [e.headVersionId.value] else []
  }

  ghost predicate NoRepeats(order: seq<string>) {
    forall i, j :: 0 <= i < j < |order| ==> order[i] != order[j]
  }

  /** The entries with content among these. */
  function WithContent(active: RegistryDisk.Entries, ids: set<string>): set<string> {
    set id | id in ids && id in active && active[id].contentHash != ""
  }

  /** One entry across the burial of `gone`: another path's is as it was, a buried one with its path to itself is a tombstone. */
  ghost predicate BuriedAt(b0: Book, b: Book, gone: set<string>, id: string) {
    id in b0.entries ==>
      && id in b.entries && b.entries[id].path == b0.entries[id].path && b.entries[id].contentHash == b0.entries[id].contentHash
      && ((forall g :: g in gone && g in b0.entries ==> b0.entries[g].path != b0.entries[id].path) ==> b.entries[id] == b0.entries[id])
      && (id in gone && TrackedAt(b0, b0.entries[id].path) == Some(b0.entries[id]) ==> b.entries[id].deleted)
  }

  /** The delete at place `k` of the new operations is of the `k`-th entry in order, and is its head. */
  ghost predicate BuriedAs(b0: Book, b: Book, order: seq<string>, k: nat)
    requires k < |order|
  {
    && order[k] in b0.entries && |b0.ops| + k < |b.ops| && order[k] in b.entries
    && DeletesEntry(b.ops[|b0.ops| + k], b0.entries[order[k]])
    && b.entries[order[k]].headVersionId == Some(b.ops[|b0.ops| + k].id)
  }

  /** The entries `gone` were buried, those with content in `order`: one delete each, and nothing else. */
  ghost predicate Burying(b0: Book, b: Book, gone: set<string>, order: seq<string>) {
    && Orderly(b) && b.pathIndex == b0.pathIndex && b.entries.Keys == b0.entries.Keys
    && b0.ops <= b.ops && |b.ops| == |b0.ops| + |order| && NoRepeats(order)
    && (forall id :: id in order <==> id in WithContent(b0.entries, gone))
    && (forall k: nat :: k < |order| ==> BuriedAs(b0, b, order, k))
    && (forall id :: BuriedAt(b0, b, gone, id))
  }

  lemma BuryingStarts(b: Book)
    requires Orderly(b)
    ensures Burying(b, b, {}, [])
  {
    forall id ensures BuriedAt(b, b, {}, id) {
    }
  }

  /** The book after one more entry was buried, entry by entry. */
  lemma BuryOneMeans(b: Book, e: FileEntry, m: Mint)
    requires Orderly(b) && e.id in b.entries
    ensures var b' := BuryOne(b, e, m);
      && Orderly(b') && b'.pathIndex == b.pathIndex && b'.entries.Keys == b.entries.Keys
      && b'.ops == b.ops + (if e.contentHash == "" then [] else [DeleteOp(e, m)])
      && (forall id :: id in b.entries ==>
            b'.entries[id].path == b.entries[id].path && b'.entries[id].contentHash == b.entries[id].contentHash)
      && (forall id :: id in b.entries && id != e.id && b.entries[id].path != e.path ==> b'.entries[id] == b.entries[id])
      && (forall id :: id in b.entries && b.entries[id].deleted ==> b'.entries[id].deleted)
      && (forall id :: id in b.entries && id != e.id ==> b'.entries[id].headVersionId == b.entries[id].headVersionId)
      && (TrackedAt(b, e.path).Some? ==> b'.entries[TrackedAt(b, e.path).value.id].deleted)
      && (e.contentHash != "" ==> b'.entries[e.id].headVersionId == Some(m.opId))
  {
    if TrackedAt(b, e.path).Some? {
      TrackedThere(b, e.path);
    }
    NilConcat(b.ops);
    var b' := BuryOne(b, e, m);
    forall p ensures Registry.CoherentAt(b'.entries, b'.pathIndex, p) {
      assert Registry.CoherentAt(b.entries, b.pathIndex, p);
    }
  }

  lemma BuryingNext(b0: Book, b: Book, gone: set<string>, order: seq<string>, id: string, m: Mint)
    requires Orderly(b0) && Burying(b0, b, gone, order) && id in b0.entries && id !in gone
    ensures var e := b0.entries[id];
      Burying(b0, BuryOne(b, e, m), gone + {id}, if e.contentHash == "" then order else order + [id])
  {
    var e := b0.entries[id];
    var b', gone', order' := BuryOne(b, e, m), gone + {id}, if e.contentHash == "" then order else order + [id];
    assert BuriedAt(b0, b, gone, id);
    BuryOneMeans(b, e, m);
    OrderNext(b0, gone, order, id);
    forall k: nat | k < |order'| ensures BuriedAs(b0, b', order', k) {
      BuriedAsNext(b0, b, gone, order, id, m, k);
    }
    forall x ensures BuriedAt(b0, b', gone', x) {
      BuriedAtNext(b0, b, gone, id, m, x);
    }
  }

  lemma OrderNext(b0: Book, gone: set<string>, order: seq<string>, id: string)
    requires id in b0.entries && id !in gone && NoRepeats(order)
    requires forall x :: x in order <==> x in WithContent(b0.entries, gone)
    ensures var order' := if b0.entries[id].contentHash == "" then order else order + [id];
      NoRepeats(order') && forall x :: x in order' <==> x in WithContent(b0.entries, gone + {id})
  {
    assert id !in order;
    forall i | 0 <= i < |order| ensures order[i] != id {
      assert order[i] in order;
    }
  }

  lemma BuriedAsNext(b0: Book, b: Book, gone: set<string>, order: seq<string>, id: string, m: Mint, k: nat)
    requires Orderly(b0) && Burying(b0, b, gone, order) && id in b0.entries && id !in gone
    requires var order' := if b0.entries[id].contentHash == "" then order else order + [id]; k < |order'|
    ensures BuriedAs(b0, BuryOne(b, b0.entries[id], m), if b0.entries[id].contentHash == "" then order else order + [id], k)
  {
    BuryOneMeans(b, b0.entries[id], m);
    if k < |order| {
      assert BuriedAs(b0, b, order, k);
      assert order[k] in order && order[k] in WithContent(b0.entries, gone);
    }
  }

  lemma BuriedAtNext(b0: Book, b: Book, gone: set<string>, id: string, m: Mint, x: string)
    requires Orderly(b0) && Orderly(b) && b.pathIndex == b0.pathIndex && b.entries.Keys == b0.entries.Keys && id in b0.entries
    requires BuriedAt(b0, b, gone, x) && BuriedAt(b0, b, gone, id)
    ensures BuriedAt(b0, BuryOne(b, b0.entries[id], m), gone + {id}, x)
  {
    var e := b0.entries[id];
    BuryOneMeans(b, e, m);
    if x in b0.entries {
      var here := b0.entries[x].path;
      if forall g :: g in gone + {id} && g in b0.entries ==> b0.entries[g].path != here {
        assert id in gone + {id};
      }
      if x == id && TrackedAt(b0, here) == Some(b0.entries[x]) {
        TrackedThere(b0, here);
        assert TrackedAt(b, here).Some? && TrackedAt(b, here).value.id == x;
      }
    }
  }

  /** The entries the listing misses. */
  function Missed(rules: Rules, b: Book, onDisk: set<string>): set<string> {
    set id | id in b.entries && !b.entries[id].deleted && !rules.excluded(b.entries[id].path) && b.entries[id].path !in onDisk
  }

  /** Nothing was listed, while entries are still live. */
  ghost predicate NotReady(rules: Rules, b: Book, onDisk: set<string>) {
    onDisk == {} && exists id :: id in b.entries && !b.entries[id].deleted && !rules.excluded(b.entries[id].path)
  }

  /** The ids of the entries the capture answers for, and those the listing misses. */
  lemma ActiveIds(rules: Rules, b: Book, onDisk: set<string>)
    requires Orderly(b)
    ensures var active := ActiveEntries(b.entries, rules.excluded);
      && (forall id :: id in active ==> id in b.entries && active[id] == b.entries[id] && active[id].id == id)
      && Missed(rules, b, onDisk) == (set id | id in active && active[id].path !in onDisk)
      && (NotReady(rules, b, onDisk) <==> onDisk == {} && active != map[])
  {
    var active := ActiveEntries(b.entries, rules.excluded);
    if active != map[] {
      var id :| id in active;
    }
    if id :| id in b.entries && !b.entries[id].deleted && !rules.excluded(b.entries[id].path) {
      assert id in active;
    }
  }

  /** The end of a pass: nothing more if the listing is not to be trusted, else every missed entry is buried. */
  ghost predicate Finished(rules: Rules, b: Book, b': Book, onDisk: set<string>) {
    if NotReady(rules, b, onDisk) then b' == b
    else exists order :: Burying(b, b', Missed(rules, b, onDisk), order)
  }

  /** The end of a pass adds deletes only, each of an entry whose path was not listed, and none if nothing was. */
  lemma FinishedDeletes(rules: Rules, b: Book, b': Book, onDisk: set<string>)
    requires Orderly(b) && Finished(rules, b, b', onDisk)
    ensures b.ops <= b'.ops && (onDisk == {} ==> b'.ops == b.ops)
    ensures forall k :: |b.ops| <= k < |b'.ops| ==>
      var op := b'.ops[k];
      op.kind == OpType.Delete && op.fileId in b'.entries && b'.entries[op.fileId].path !in onDisk
  {
    if !NotReady(rules, b, onDisk) {
      var order :| Burying(b, b', Missed(rules, b, onDisk), order);
      forall k | |b.ops| <= k < |b'.ops|
        ensures b'.ops[k].kind == OpType.Delete && b'.ops[k].fileId in b'.entries && b'.entries[b'.ops[k].fileId].path !in onDisk
      {
        assert BuriedAs(b, b', order, k - |b.ops|);
        var id := order[k - |b.ops|];
        assert id in order && id in WithContent(b.entries, Missed(rules, b, onDisk));
        assert BuriedAt(b, b', Missed(rules, b, onDisk), id);
      }
      assert order != [] ==> order[0] in order;
      assert onDisk == {} ==> Missed(rules, b, onDisk) == {};
    }
  }

  /** A pass adds creates and updates, and, if it ran to its end over some listing, deletes of entries not listed. */
  ghost predicate OnlyItsOwn(b0: Book, b: Book, aborted: bool, onDisk: set<string>) {
    b0.ops <= b.ops && forall k :: |b0.ops| <= k < |b.ops| ==>
      var op := b.ops[k];
      || CarriesContent(op)
      || (&& op.kind == OpType.Delete && !aborted && onDisk != {}
          && op.fileId in b.entries && b.entries[op.fileId].path !in onDisk)
  }

  /** The walk over a listing keeps the book in order and adds content only. */
  lemma {:induction false} UptoAdds(rules: Rules, b: Book, files: seq<Ref>, mint: nat -> Mint, k: nat)
    requires Orderly(b) && FreshIds(mint, 0, b) && k <= |files|
    ensures var b' := CaptureUpto(rules, b, files, mint, k);
      Orderly(b') && FreshIds(mint, k, b') && OnlyContent(b.ops, b'.ops)
  {
    if k > 0 {
      var before := CaptureUpto(rules, b, files, mint, k - 1);
      UptoAdds(rules, b, files, mint, k - 1);
      assert Unused(mint, k - 1, {}, before.entries);
      RefMeans(rules, before, files[k - 1], mint(k - 1));
      RefOps(rules, before, files[k - 1], mint(k - 1));
      SupplyNext(mint, k - 1, {}, before.entries, {}, CaptureUpto(rules, b, files, mint, k).entries);
    }
  }

  /** A live entry the listing missed has a delete from its head, which is its new head; alone at its path it is a tombstone. */
  ghost predicate IsDeleted(b0: Book, b: Book, id: string)
    requires id in b0.entries
  {
    var e := b0.entries[id];
    && id in b.entries
    && (TrackedAt(b0, e.path) == Some(e) ==> b.entries[id].deleted)
    && (e.contentHash != "" ==> exists op :: op in b.ops && DeletesEntry(op, e) && b.entries[id].headVersionId == Some(op.id))
  }

  /** Entries at a path that is neither listed nor led to by a live entry the pass answers for. */
  ghost predicate LeftAlone(rules: Rules, b0: Book, b: Book, onDisk: set<string>, id: string)
    requires id in b0.entries
  {
    b0.entries[id].path !in onDisk
    && (forall g :: g in b0.entries && b0.entries[g].path == b0.entries[id].path ==>
          b0.entries[g].deleted || rules.excluded(b0.entries[g].path)) ==>
      id in b.entries && b.entries[id] == b0.entries[id]
  }

  /** The first `n` operations are the old ones and those of the wanted files, the others deletes. */
  ghost predicate WantedThenDeletes(rules: Rules, b0: Book, files: seq<Ref>, mint: nat -> Mint, b: Book, n: nat) {
    && n <= |b.ops| && AllWanted(rules, b0, files, mint, |files|, b.ops[..n])
    && forall k :: n <= k < |b.ops| ==> b.ops[k].kind == OpType.Delete
  }

  /**
   * A pass over a listing without repeated paths that was not aborted: every file wanted at its start is
   * captured, and no other file; every live entry the listing does not hold is deleted, unless nothing
   * was listed; and the entries of other paths are left alone.
   */
  ghost predicate DidItsWork(rules: Rules, b0: Book, files: seq<Ref>, mint: nat -> Mint, b: Book, onDisk: set<string>) {
    && (forall j :: 0 <= j < |files| ==> IsCaptured(rules, b0, b, files[j], mint(j)))
    && (exists n :: WantedThenDeletes(rules, b0, files, mint, b, n))
    && (onDisk != {} ==> forall id ::
          id in b0.entries && !b0.entries[id].deleted && !rules.excluded(b0.entries[id].path) && b0.entries[id].path !in onDisk ==>
            IsDeleted(b0, b, id))
    && (forall id :: id in b0.entries ==> LeftAlone(rules, b0, b, onDisk, id))
  }

  lemma PassMeans(rules: Rules, b0: Book, files: seq<Ref>, mint: nat -> Mint, b: Book)
    requires Orderly(b0) && FreshIds(mint, 0, b0) && ListedOnce(rules, files)
    requires Finished(rules, CaptureUpto(rules, b0, files, mint, |files|), b, OnDisk(rules, files, |files|))
    ensures DidItsWork(rules, b0, files, mint, b, OnDisk(rules, files, |files|))
  {
    var onDisk := OnDisk(rules, files, |files|);
    var b1 := CaptureUpto(rules, b0, files, mint, |files|);
    EveryChangeIsCaptured(rules, b0, files, mint, |files|);
    FinishedDeletes(rules, b1, b, onDisk);
    assert b.ops[..|b1.ops|] == b1.ops;
    assert WantedThenDeletes(rules, b0, files, mint, b, |b1.ops|);
    if !NotReady(rules, b1, onDisk) {
      var order :| Burying(b1, b, Missed(rules, b1, onDisk), order);
      forall j | 0 <= j < |files| ensures IsCaptured(rules, b0, b, files[j], mint(j)) {
        assert IsCaptured(rules, b0, b1, files[j], mint(j));
        StaysCaptured(rules, b0, b1, b, files[j], mint(j), onDisk, order);
      }
      forall id | onDisk != {} && id in Missed(rules, b0, onDisk) ensures IsDeleted(b0, b, id) {
        MissedIsDeleted(rules, b0, b1, b, onDisk, order, id);
      }
      forall id | id in b0.entries ensures LeftAlone(rules, b0, b, onDisk, id) {
        OthersLeftAlone(rules, b0, files, mint, b1, b, order, id);
      }
    }
  }

  lemma OthersLeftAlone(
    rules: Rules, b0: Book, files: seq<Ref>, mint: nat -> Mint, b1: Book, b: Book, order: seq<string>, id: string)
    requires id in b0.entries && Halfway(rules, b0, files, mint, |files|, b1)
    requires Burying(b1, b, Missed(rules, b1, OnDisk(rules, files, |files|)), order)
    ensures LeftAlone(rules, b0, b, OnDisk(rules, files, |files|), id)
  {
    var onDisk, here := OnDisk(rules, files, |files|), b0.entries[id].path;
    var gone := Missed(rules, b1, onDisk);
    assert BuriedAt(b1, b, gone, id);
  }

  /** Burying entries at other paths leaves what was captured. */
  lemma StaysCaptured(
    rules: Rules, b0: Book, b1: Book, b: Book, ref: Ref, m: Mint, onDisk: set<string>, order: seq<string>)
    requires IsCaptured(rules, b0, b1, ref, m) && Orderly(b1) && Burying(b1, b, Missed(rules, b1, onDisk), order)
    requires !rules.excluded(ref.path) ==> ref.path in onDisk
    ensures IsCaptured(rules, b0, b, ref, m)
  {
    if Wanted(rules, b0, ref) {
      TrackedThere(b1, ref.path);
      assert BuriedAt(b1, b, Missed(rules, b1, onDisk), TrackedAt(b1, ref.path).value.id);
    }
  }

  lemma MissedIsDeleted(rules: Rules, b0: Book, b1: Book, b: Book, onDisk: set<string>, order: seq<string>, id: string)
    requires Orderly(b0) && Orderly(b1) && Burying(b1, b, Missed(rules, b1, onDisk), order) && id in Missed(rules, b0, onDisk)
    requires id in b1.entries && b1.entries[id] == b0.entries[id]
    requires TrackedAt(b1, b0.entries[id].path) == TrackedAt(b0, b0.entries[id].path)
    ensures IsDeleted(b0, b, id)
  {
    var gone, e := Missed(rules, b1, onDisk), b0.entries[id];
    assert BuriedAt(b1, b, gone, id);
    if e.contentHash != "" {
      assert id in WithContent(b1.entries, gone);
      var k: nat :| k < |order| && order[k] == id;
      assert BuriedAs(b1, b, order, k);
    }
  }
}
