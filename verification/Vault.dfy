/** The records the sync core exchanges. */
module Vault {
  import opened Base
  import opened Hlc

  datatype Stat = Stat(mtime: int, size: nat)

  /** A tracked file; `None` is a null or absent field. */
  datatype FileEntry = FileEntry(
    id: string, path: string, contentHash: string, hlcTimestamp: HLC, deleted: bool,
    lastSyncedPath: Option<string>, headVersionId: Option<string>, conflictParents: Option<seq<string>>,
    stat: Option<Stat>)

  /** A version id counts as known only when it is non-empty. */
  function Head(e: FileEntry): Option<string> {
    if e.headVersionId.Some? && e.headVersionId.value != "" then e.headVersionId else None
  }

  /** A text conflict is on disk as markers and both heads are open. */
  predicate TwoHeaded(e: FileEntry) {
    e.conflictParents.Some? && |e.conflictParents.value| >= 2
  }

  /** One device's view of a vault; `ids` is the insertion order of `entries`. */
  datatype VaultState = VaultState(
    hlc: HLC, ids: seq<string>, entries: map<string, FileEntry>, contentStore: map<string, Bytes>)

  ghost predicate WellFormed(s: VaultState) {
    && (forall id :: id in s.ids <==> id in s.entries)
    && (forall i, j :: 0 <= i < j < |s.ids| ==> s.ids[i] != s.ids[j])
    && (forall id :: id in s.entries ==> s.entries[id].id == id)
  }

  datatype OpType = Create | Update | Delete | Move

  /** An operation of the log; its id is the version it mints. */
  datatype Op = Op(id: string, kind: OpType, parents: seq<string>, contentHash: string, fileId: string)

  function Fetch(store: map<string, Bytes>, hash: string): Option<Bytes> {
    if hash in store then Some(store[hash]) else None
  }

  /** `a ?? b`. */
  function OrElse<T>(a: Option<T>, b: Option<T>): Option<T> {
    if a.Some? then a else b
  }
}
