/** The merge decision: two vault states in, one action per file out. */
module StateMerge {
  import opened Base
  import opened Hlc
  import opened Vault
  import opened VersionGraph
  import opened ThreeWay
  import Diff
  import Text

  /** The four questions the decision asks the version graph. */
  datatype DagView = DagView(
    isAncestor: (string, string) -> bool,
    mergeBase: (string, string) -> MergeBase,
    isMergeNode: string -> bool,
    contentHashOf: string -> Option<string>)

  /** The text codec and the line diff. */
  datatype Env = Env(
    decode: Bytes -> string,
    encode: string -> Bytes,
    diff: (seq<string>, seq<string>) -> seq<Diff.DiffOp>)

  datatype Side = LocalDeleted | RemoteDeleted

  datatype MergeAction =
    | WriteLocal(fileId: string, path: string, content: Bytes, hlc: HLC, headVersionId: Option<string>)
    | WriteMerge(fileId: string, path: string, content: Bytes, parents: seq<string>)
    | SendRemote(fileId: string, path: string, hlc: HLC)
    | DeleteLocal(fileId: string, path: string)
    | DeleteRemote(fileId: string, path: string)
    | MoveLocal(fileId: string, fromPath: string, toPath: string)
    | TextConflict(
        fileId: string, localPath: string, remotePath: string, mergeResult: MergeResult,
        localContent: string, remoteContent: string, conflictHeads: Option<seq<string>>)
    | DeleteConflict(fileId: string, path: string, side: Side, content: Bytes, conflictHeads: Option<seq<string>>)
    | BinaryConflict(
        fileId: string, localPath: string, remotePath: string, localBytes: Bytes, remoteBytes: Bytes,
        localHlc: HLC, remoteHlc: HLC, conflictHeads: Option<seq<string>>)
    | NoOp(fileId: string)

  // --------------------------------------------------------------------- helpers

  const BINARY_SNIFF_BYTES: nat := 8192

  /** A null byte among the first 8192. */
  predicate IsBinary(content: Bytes) {
    exists i :: 0 <= i < |content| && i < BINARY_SNIFF_BYTES && content[i] == 0
  }

  /** `threeWayMerge` on texts, for a given line diff. */
  function ThreeWayText(env: Env, ancestorText: string, localText: string, remoteText: string): MergeResult {
    var anc, local, remote :=
      Text.NormalizeLines(ancestorText), Text.NormalizeLines(localText), Text.NormalizeLines(remoteText);
    MergeLines(anc, local, remote, env.diff(anc, local), env.diff(anc, remote))
  }

  function WholeFileConflict(localText: string, remoteText: string): MergeResult {
    var local, remote := Text.NormalizeLines(localText), Text.NormalizeLines(remoteText);
    MergeResult(local, [ConflictChunk(0, |local| - 1, [], local, remote)], true)
  }

  function BothHeads(le: FileEntry, re: FileEntry): Option<seq<string>> {
    if Head(le).Some? && Head(re).Some? then Some([Head(le).value, Head(re).value]) else None
  }

  datatype Base3 = Base3(baseHash: Option<string>, ambiguous: bool, hasKnownAncestor: bool)

  function ResolveThreeWayBase(le: FileEntry, re: FileEntry, dag: Option<DagView>): Base3 {
    if dag.Some? && Head(le).Some? && Head(re).Some? then
      match dag.value.mergeBase(Head(le).value, Head(re).value)
      case Multiple => Base3(None, true, false)
      case BaseOf(x) => Base3(dag.value.contentHashOf(x), false, true)
      case NoBase => Base3(None, false, false)
    else Base3(None, false, false)
  }

  /** The survivor of a one-sided delete was neither renamed nor edited since the common base. */
  predicate IsUnchangedSinceBase(survivor: FileEntry, other: FileEntry, dag: Option<DagView>) {
    var syncedPath := OrElse(survivor.lastSyncedPath, other.lastSyncedPath);
    && !(syncedPath.Some? && survivor.path != syncedPath.value)
    && dag.Some? && Head(survivor).Some? && Head(other).Some?
    && var base := dag.value.mergeBase(Head(survivor).value, Head(other).value);
       base.BaseOf? && dag.value.contentHashOf(base.id) == Some(survivor.contentHash)
  }

  function ResolveRenameConflict(fileId: string, le: FileEntry, re: FileEntry): MergeAction {
    if HlcCompare(le.hlcTimestamp, re.hlcTimestamp) >= 0 then NoOp(fileId)
    else MoveLocal(fileId, le.path, re.path)
  }

  /** A merge node in the graph that descends from `head`: a peer settled this. */
  predicate Resolves(dag: Option<DagView>, head: Option<string>, settled: Option<string>) {
    dag.Some? && head.Some? && settled.Some? && dag.value.isMergeNode(settled.value) && dag.value.isAncestor(head.value, settled.value)
  }

  // ------------------------------------------------------------ the both-live cases

  function ResolveSameContent(
    fileId: string, le: FileEntry, re: FileEntry, local: VaultState, remote: VaultState, dag: Option<DagView>)
    : MergeAction
  {
    if le.path != re.path then ResolveRenameConflict(fileId, le, re)
    else if dag.Some? && Head(le).Some? && Head(re).Some? && Head(le) != Head(re) then
      var view, lh, rh := dag.value, Head(le).value, Head(re).value;
      var localAtHead := view.contentHashOf(lh) == Some(le.contentHash);
      var content := OrElse(Fetch(local.contentStore, le.contentHash), Fetch(remote.contentStore, re.contentHash));
      if view.isAncestor(rh, lh) then NoOp(fileId)
      else if localAtHead && view.isAncestor(lh, rh) then
        if content.Some? then WriteLocal(fileId, re.path, content.value, re.hlcTimestamp, Some(rh)) else NoOp(fileId)
      else if localAtHead && content.Some? then WriteMerge(fileId, le.path, content.value, [lh, rh])
      else NoOp(fileId)
    else NoOp(fileId)
  }

  /** A two-headed file adopts a merge node above every open head, and otherwise holds. */
  function ResolveTwoHeaded(
    fileId: string, le: FileEntry, re: FileEntry, local: VaultState, remote: VaultState, dag: Option<DagView>)
    : MergeAction
    requires TwoHeaded(le)
  {
    if dag.Some? && Head(re).Some? && dag.value.isMergeNode(Head(re).value)
       && (forall h :: h in le.conflictParents.value ==> dag.value.isAncestor(h, Head(re).value)) then
      var content := OrElse(Fetch(remote.contentStore, re.contentHash), Fetch(local.contentStore, re.contentHash));
      if content.Some? then WriteLocal(fileId, re.path, content.value, re.hlcTimestamp, Head(re)) else NoOp(fileId)
    else NoOp(fileId)
  }

  function ResolveContentConflict(
    env: Env, fileId: string, le: FileEntry, re: FileEntry, local: VaultState, remote: VaultState,
    dag: Option<DagView>): MergeAction
  {
    var localContent := Fetch(local.contentStore, le.contentHash);
    var remoteContent := Fetch(remote.contentStore, re.contentHash);
    if TwoHeaded(le) then ResolveTwoHeaded(fileId, le, re, local, remote, dag)
    else if dag.Some? && Head(le).Some? && Head(re).Some?
         && dag.value.contentHashOf(Head(le).value) == Some(le.contentHash)
         && dag.value.isAncestor(Head(le).value, Head(re).value) then
      var content := OrElse(remoteContent, Fetch(local.contentStore, re.contentHash));
      if content.Some? then WriteLocal(fileId, re.path, content.value, re.hlcTimestamp, Head(re)) else NoOp(fileId)
    else if dag.Some? && Head(le).Some? && Head(re).Some?
         && dag.value.isAncestor(Head(re).value, Head(le).value) then NoOp(fileId)
    else if localContent.None? || remoteContent.None? then
      var localWins := HlcCompare(le.hlcTimestamp, re.hlcTimestamp) >= 0;
      var winner, content := if localWins then le else re, if localWins then localContent else remoteContent;
      if content.None? then NoOp(fileId)
      else WriteLocal(fileId, winner.path, content.value, winner.hlcTimestamp, winner.headVersionId)
    else ResolveDivergence(env, fileId, le, re, local, remote, dag, localContent.value, remoteContent.value)
  }

  function AncestorContent(base: Base3, local: VaultState, remote: VaultState): Option<Bytes> {
    if base.baseHash.Some? then
      OrElse(Fetch(local.contentStore, base.baseHash.value), Fetch(remote.contentStore, base.baseHash.value))
    else None
  }

  function AncestorText(env: Env, content: Option<Bytes>): string {
    if content.Some? then env.decode(content.value) else ""
  }

  /** Two diverged versions whose bytes are at hand. */
  function ResolveDivergence(
    env: Env, fileId: string, le: FileEntry, re: FileEntry, local: VaultState, remote: VaultState,
    dag: Option<DagView>, localContent: Bytes, remoteContent: Bytes): MergeAction
  {
    var base := ResolveThreeWayBase(le, re, dag);
    var heads := BothHeads(le, re);
    var localText, remoteText := env.decode(localContent), env.decode(remoteContent);
    if IsBinary(localContent) || IsBinary(remoteContent) then
      if !base.ambiguous && base.baseHash.Some? && re.contentHash != base.baseHash.value
         && le.contentHash == base.baseHash.value then
        WriteLocal(fileId, re.path, remoteContent, re.hlcTimestamp, re.headVersionId)
      else if !base.ambiguous && base.baseHash.Some? && le.contentHash != base.baseHash.value
              && re.contentHash == base.baseHash.value then NoOp(fileId)
      else BinaryConflict(
             fileId, le.path, re.path, localContent, remoteContent, le.hlcTimestamp, re.hlcTimestamp, heads)
    else
      var whole := TextConflict(
        fileId, le.path, re.path, WholeFileConflict(localText, remoteText), localText, remoteText, heads);
      var ancestorContent := AncestorContent(base, local, remote);
      if base.ambiguous then whole
      else if base.hasKnownAncestor && ancestorContent.None? then whole
      else
        var result := ThreeWayText(env, AncestorText(env, ancestorContent), localText, remoteText);
        if result.hasConflicts then
          TextConflict(fileId, le.path, re.path, result, localText, remoteText, heads)
        else
          var content := env.encode(Text.Join(result.merged, Text.LF));
          var winner := if HlcCompare(le.hlcTimestamp, re.hlcTimestamp) >= 0 then le else re;
          if heads.Some? then WriteMerge(fileId, winner.path, content, heads.value)
          else WriteLocal(fileId, winner.path, content, HlcMax(le.hlcTimestamp, re.hlcTimestamp), None)
  }

  // -------------------------------------------------------------- create collisions

  function PickCollisionWinner(le: FileEntry, re: FileEntry): FileEntry {
    var cmp := HlcCompare(le.hlcTimestamp, re.hlcTimestamp);
    if cmp > 0 then le else if cmp < 0 then re else if StringLess(re.id, le.id) then le else re
  }

  function AdoptRemoteId(le: FileEntry, re: FileEntry, local: VaultState, remote: VaultState, selfIsRemote: bool)
    : MergeAction
  {
    var content := OrElse(Fetch(remote.contentStore, re.contentHash), Fetch(local.contentStore, le.contentHash));
    if !selfIsRemote then NoOp(le.id)
    else if content.None? then NoOp(re.id)
    else WriteLocal(re.id, re.path, content.value, re.hlcTimestamp, re.headVersionId)
  }

  /** Two ids at one path: one of them is kept, the same one on both devices. */
  function ResolveCreateCollision(
    env: Env, le: FileEntry, re: FileEntry, local: VaultState, remote: VaultState, selfIsRemote: bool,
    dag: Option<DagView>): MergeAction
  {
    var noOp := NoOp(if selfIsRemote then re.id else le.id);
    var localContent := Fetch(local.contentStore, le.contentHash);
    var remoteContent := Fetch(remote.contentStore, re.contentHash);
    var headsKnown := dag.Some? && Head(le).Some? && Head(re).Some?;
    var winner := PickCollisionWinner(le, re);
    if headsKnown && dag.value.isAncestor(Head(le).value, Head(re).value) then
      AdoptRemoteId(le, re, local, remote, selfIsRemote)
    else if headsKnown && dag.value.isAncestor(Head(re).value, Head(le).value) then noOp
    else if le.contentHash == re.contentHash then
      if winner == re then AdoptRemoteId(le, re, local, remote, selfIsRemote) else noOp
    else if localContent.None? || remoteContent.None? then noOp
    else if (if selfIsRemote then re else le) != winner then noOp
    else
      var localText, remoteText := env.decode(localContent.value), env.decode(remoteContent.value);
      TextConflict(winner.id, le.path, re.path, WholeFileConflict(localText, remoteText),
        localText, remoteText, BothHeads(le, re))
  }

  // ------------------------------------------------------------------ classification

  function ClassifyRemoteOnly(
    env: Env, fileId: string, re: FileEntry, local: VaultState, remote: VaultState,
    localLiveByPath: map<string, string>, dag: Option<DagView>): MergeAction
  {
    if re.deleted then NoOp(fileId)
    else if re.path in localLiveByPath && localLiveByPath[re.path] != fileId
         && localLiveByPath[re.path] in local.entries then
      ResolveCreateCollision(env, local.entries[localLiveByPath[re.path]], re, local, remote, true, dag)
    else
      var content := Fetch(remote.contentStore, re.contentHash);
      if content.None? then NoOp(fileId)
      else WriteLocal(fileId, re.path, content.value, re.hlcTimestamp, re.headVersionId)
  }

  function ClassifyLocalOnly(
    env: Env, fileId: string, le: FileEntry, local: VaultState, remote: VaultState,
    remoteLiveByPath: map<string, string>, dag: Option<DagView>): MergeAction
  {
    if le.deleted then NoOp(fileId)
    else if le.path in remoteLiveByPath && remoteLiveByPath[le.path] != fileId
         && remoteLiveByPath[le.path] in remote.entries then
      ResolveCreateCollision(env, le, remote.entries[remoteLiveByPath[le.path]], local, remote, false, dag)
    else SendRemote(fileId, le.path, le.hlcTimestamp)
  }

  function ClassifyLocalDeleted(
    fileId: string, le: FileEntry, re: FileEntry, local: VaultState, remote: VaultState, dag: Option<DagView>)
    : MergeAction
  {
    var content := OrElse(Fetch(remote.contentStore, re.contentHash), Fetch(local.contentStore, re.contentHash));
    if Resolves(dag, Head(le), Head(re)) && content.Some? then
      WriteLocal(fileId, re.path, content.value, re.hlcTimestamp, Head(re))
    else if IsUnchangedSinceBase(re, le, dag) then DeleteRemote(fileId, re.path)
    else if content.None? then NoOp(fileId)
    else DeleteConflict(fileId, re.path, LocalDeleted, content.value, BothHeads(le, re))
  }

  function ClassifyRemoteDeleted(
    fileId: string, le: FileEntry, re: FileEntry, local: VaultState, remote: VaultState, dag: Option<DagView>)
    : MergeAction
  {
    var content := OrElse(Fetch(local.contentStore, le.contentHash), Fetch(remote.contentStore, le.contentHash));
    if Resolves(dag, Head(le), Head(re)) then DeleteLocal(fileId, le.path)
    else if IsUnchangedSinceBase(le, re, dag) then DeleteLocal(fileId, le.path)
    else if content.None? then NoOp(fileId)
    else DeleteConflict(fileId, le.path, RemoteDeleted, content.value, BothHeads(le, re))
  }

  function ClassifyBoth(
    env: Env, fileId: string, le: FileEntry, re: FileEntry, local: VaultState, remote: VaultState,
    dag: Option<DagView>): MergeAction
  {
    if le.deleted && re.deleted then NoOp(fileId)
    else if le.deleted then ClassifyLocalDeleted(fileId, le, re, local, remote, dag)
    else if re.deleted then ClassifyRemoteDeleted(fileId, le, re, local, remote, dag)
    else if le.contentHash == re.contentHash then ResolveSameContent(fileId, le, re, local, remote, dag)
    else ResolveContentConflict(env, fileId, le, re, local, remote, dag)
  }

  function ClassifyAndResolve(
    env: Env, fileId: string, local: VaultState, remote: VaultState,
    localLiveByPath: map<string, string>, remoteLiveByPath: map<string, string>, dag: Option<DagView>): MergeAction
    requires fileId in local.entries || fileId in remote.entries
  {
    if fileId !in local.entries then
      ClassifyRemoteOnly(env, fileId, remote.entries[fileId], local, remote, localLiveByPath, dag)
    else if fileId !in remote.entries then
      ClassifyLocalOnly(env, fileId, local.entries[fileId], local, remote, remoteLiveByPath, dag)
    else ClassifyBoth(env, fileId, local.entries[fileId], remote.entries[fileId], local, remote, dag)
  }

  // ----------------------------------------------------------------- whole vaults

  /** The `i`-th entry is live and holds path `p`. */
  predicate LiveAt(s: VaultState, i: nat, p: string) {
    i < |s.ids| && s.ids[i] in s.entries && !s.entries[s.ids[i]].deleted && s.entries[s.ids[i]].path == p
  }

  /** Among the first `k` entries, the `j`-th is the last live one at `p`. */
  ghost predicate LastAt(s: VaultState, k: nat, j: nat, p: string) {
    j < k && LiveAt(s, j, p) && forall i: nat :: j < i < k ==> !LiveAt(s, i, p)
  }

  /** The index over the first `k` entries: for every live path, the last live entry that holds it. */
  ghost predicate IndexUpTo(s: VaultState, k: nat, index: map<string, string>) {
    && (forall p :: p in index ==> exists j: nat :: LastAt(s, k, j, p) && s.ids[j] == index[p])
    && (forall j: nat, p :: j < k && LiveAt(s, j, p) ==> p in index)
  }

  ghost predicate LiveIndex(s: VaultState, index: map<string, string>) {
    IndexUpTo(s, |s.ids|, index)
  }

  lemma IndexStep(s: VaultState, k: nat, index: map<string, string>)
    requires WellFormed(s) && k < |s.ids| && IndexUpTo(s, k, index)
    ensures s.ids[k] in s.entries
    ensures var entry := s.entries[s.ids[k]];
      IndexUpTo(s, k + 1, if entry.deleted then index else index[entry.path := s.ids[k]])
  {
    assert s.ids[k] in s.entries;
    var entry := s.entries[s.ids[k]];
    var next := if entry.deleted then index else index[entry.path := s.ids[k]];
    forall p | p in next ensures exists j: nat :: LastAt(s, k + 1, j, p) && s.ids[j] == next[p] {
      if !entry.deleted && p == entry.path {
        assert LastAt(s, k + 1, k, p);
      } else {
        var j: nat :| LastAt(s, k, j, p) && s.ids[j] == index[p];
        assert LastAt(s, k + 1, j, p);
      }
    }
  }

  method LiveByPath(s: VaultState) returns (index: map<string, string>)
    requires WellFormed(s)
    ensures LiveIndex(s, index)
  {
    index := map[];
    for k := 0 to |s.ids|
      invariant IndexUpTo(s, k, index)
    {
      IndexStep(s, k, index);
      var entry := s.entries[s.ids[k]];
      if !entry.deleted {
        index := index[entry.path := s.ids[k]];
      }
    }
  }

  /** Local ids in order, then the ids only the remote side knows. */
  function AllIds(local: VaultState, remote: VaultState): seq<string> {
    local.ids + OnlyIn(remote.ids, local.entries.Keys)
  }

  function OnlyIn(ids: seq<string>, known: set<string>): seq<string> {
    if ids == [] then []
    else (if ids[0] in known then [] else [ids[0]]) + OnlyIn(ids[1..], known)
  }

  lemma {:induction false} OnlyInMembers(ids: seq<string>, known: set<string>)
    ensures forall id :: id in OnlyIn(ids, known) <==> id in ids && id !in known
  {
    if ids != [] {
      OnlyInMembers(ids[1..], known);
      assert ids == [ids[0]] + ids[1..];
    }
  }

  ghost predicate NoneTwice(ids: seq<string>) {
    forall i, j :: 0 <= i < j < |ids| ==> ids[i] != ids[j]
  }

  lemma {:induction false} OnlyInDistinct(ids: seq<string>, known: set<string>)
    requires NoneTwice(ids)
    ensures NoneTwice(OnlyIn(ids, known))
  {
    if ids != [] {
      OnlyInDistinct(ids[1..], known);
      OnlyInMembers(ids[1..], known);
      assert forall id :: id in OnlyIn(ids[1..], known) ==> id in ids[1..];
    }
  }

  /** Every id of either side has one place in the walk. */
  lemma AllIdsOnce(local: VaultState, remote: VaultState)
    requires WellFormed(local) && WellFormed(remote)
    ensures NoneTwice(AllIds(local, remote))
    ensures forall id :: id in AllIds(local, remote) <==> id in local.entries || id in remote.entries
  {
    OnlyInDistinct(remote.ids, local.entries.Keys);
    OnlyInMembers(remote.ids, local.entries.Keys);
    var more := OnlyIn(remote.ids, local.entries.Keys);
    forall i, j | 0 <= i < |local.ids| && 0 <= j < |more| ensures local.ids[i] != more[j] {
      assert local.ids[i] in local.ids && more[j] in more;
    }
  }

  /** One action per file id known to either side, and the later of the two clocks. */
  method MergeVaultStates(env: Env, local: VaultState, remote: VaultState, dag: Option<DagView>)
    returns (actions: seq<MergeAction>, mergedHlc: HLC, ghost localIndex: map<string, string>, ghost remoteIndex: map<string, string>)
    requires WellFormed(local) && WellFormed(remote)
    ensures mergedHlc == HlcMax(local.hlc, remote.hlc)
    ensures LiveIndex(local, localIndex) && LiveIndex(remote, remoteIndex)
    ensures var ids := AllIds(local, remote);
      && |actions| == |ids|
      && forall k :: 0 <= k < |ids| ==>
           && (ids[k] in local.entries || ids[k] in remote.entries)
           && actions[k] == ClassifyAndResolve(env, ids[k], local, remote, localIndex, remoteIndex, dag)
    ensures forall id :: id in AllIds(local, remote) <==> id in local.entries || id in remote.entries
    ensures NoneTwice(AllIds(local, remote))
  {
    mergedHlc := HlcMax(local.hlc, remote.hlc);
    var localLiveByPath := LiveByPath(local);
    var remoteLiveByPath := LiveByPath(remote);
    localIndex, remoteIndex := localLiveByPath, remoteLiveByPath;
    AllIdsOnce(local, remote);
    var ids := AllIds(local, remote);
    actions := [];
    for k := 0 to |ids|
      invariant |actions| == k
      invariant forall j :: 0 <= j < k ==>
        && (ids[j] in local.entries || ids[j] in remote.entries)
        && actions[j] == ClassifyAndResolve(env, ids[j], local, remote, localIndex, remoteIndex, dag)
    {
      assert ids[k] in ids;
      actions := actions + [ClassifyAndResolve(env, ids[k], local, remote, localLiveByPath, remoteLiveByPath, dag)];
    }
  }
}
