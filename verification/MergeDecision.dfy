/**
 * Which action a file gets, case by case, in terms of the version graph, the clocks and the staged bytes:
 * for every pair of entries exactly when it is merged, adopted, kept, moved, deleted or put to the user.
 */
module MergeDecision {
  import opened Base
  import opened Hlc
  import opened Vault
  import opened VersionGraph
  import opened StateMerge
  import opened StateMergeLaws
  import opened ThreeWay
  import Text

  /** The content the merge base names, if there is one base and its bytes are staged on either side. */
  ghost function CommonBytes(g: Graph, base: MergeBase, local: VaultState, remote: VaultState): Option<Bytes> {
    if base.BaseOf? && HashOf(g, base.id).Some? then
      var hash := HashOf(g, base.id).value;
      if hash in local.contentStore then Some(local.contentStore[hash])
      else if hash in remote.contentStore then Some(remote.contentStore[hash])
      else None
    else None
  }

  /** Both entries are live, name different contents, and are not settled by one head descending from the other. */
  ghost predicate Diverged(g: Graph, le: FileEntry, re: FileEntry)
    requires Head(le).Some? && Head(re).Some?
  {
    var lh, rh := Head(le).value, Head(re).value;
    && !le.deleted && !re.deleted && (le.conflictParents.Some? ==> |le.conflictParents.value| < 2) && le.contentHash != re.contentHash
    && !(HashOf(g, lh) == Some(le.contentHash) && Ancestor(g, lh, rh)) && !Ancestor(g, rh, lh)
  }

  /**
   * Diverged texts. They are merged, under both heads and at the path of the later clock, exactly when the
   * two share no version or the bytes of their one merge base are staged, and the three-way merge against
   * that text (or none) is clean; if it is not clean, its conflicts go to the user. With several merge
   * bases, or a base whose bytes are not at hand, the two texts are never united: the whole file conflicts.
   */
  lemma TextDecision(
    env: Env, view: DagView, g: Graph, fileId: string, le: FileEntry, re: FileEntry, local: VaultState, remote: VaultState)
    requires Known(view, g, le, re, local, remote) && Diverged(g, le, re)
    requires !IsBinary(local.contentStore[le.contentHash]) && !IsBinary(remote.contentStore[re.contentHash])
    ensures var action := ClassifyBoth(env, fileId, le, re, local, remote, Some(view));
      var heads := [Head(le).value, Head(re).value];
      var base := MergeBaseOf(g, heads[0], heads[1]);
      var common := CommonBytes(g, base, local, remote);
      var l, r := env.decode(local.contentStore[le.contentHash]), env.decode(remote.contentStore[re.contentHash]);
      var ls, rs := Text.NormalizeLines(l), Text.NormalizeLines(r);
      var merged := ThreeWayText(env, if common.Some? then env.decode(common.value) else "", l, r);
      && (action.WriteMerge? <==> (base == NoBase || common.Some?) && !merged.hasConflicts)
      && (action.WriteMerge? ==> action == WriteMerge(
            fileId, if HlcCompare(le.hlcTimestamp, re.hlcTimestamp) >= 0 then le.path else re.path,
            env.encode(Text.Join(merged.merged, Text.LF)), heads))
      && ((base == NoBase || common.Some?) && merged.hasConflicts ==>
            action == TextConflict(fileId, le.path, re.path, merged, l, r, Some(heads)))
      && (base == Multiple || (base.BaseOf? && common.None?) ==>
            action == TextConflict(fileId, le.path, re.path,
              MergeResult(ls, [ConflictChunk(0, |ls| - 1, [], ls, rs)], true), l, r, Some(heads)))
  {
    ReachesDivergence(env, view, g, fileId, le, re, local, remote);
    match MergeBaseOf(g, Head(le).value, Head(re).value)
    case Multiple =>
      assert ResolveThreeWayBase(le, re, Some(view)) == Base3(None, true, false);
    case NoBase =>
      assert ResolveThreeWayBase(le, re, Some(view)) == Base3(None, false, false);
    case BaseOf(x) =>
      assert ResolveThreeWayBase(le, re, Some(view)) == Base3(HashOf(g, x), false, true);
  }

  lemma ReachesDivergence(
    env: Env, view: DagView, g: Graph, fileId: string, le: FileEntry, re: FileEntry, local: VaultState, remote: VaultState)
    requires Known(view, g, le, re, local, remote) && Diverged(g, le, re)
    ensures ClassifyBoth(env, fileId, le, re, local, remote, Some(view)) == ResolveDivergence(
      env, fileId, le, re, local, remote, Some(view), local.contentStore[le.contentHash], remote.contentStore[re.contentHash])
  {
  }

  /**
   * Diverged binaries: the side that left the merge base's content unchanged takes the other's over, and
   * if neither did, both contents go to the user.
   */
  lemma BinaryDecision(
    env: Env, view: DagView, g: Graph, fileId: string, le: FileEntry, re: FileEntry, local: VaultState, remote: VaultState)
    requires Known(view, g, le, re, local, remote) && Diverged(g, le, re)
    requires IsBinary(local.contentStore[le.contentHash]) || IsBinary(remote.contentStore[re.contentHash])
    ensures var action := ClassifyBoth(env, fileId, le, re, local, remote, Some(view));
      var heads := [Head(le).value, Head(re).value];
      var base := MergeBaseOf(g, heads[0], heads[1]);
      var common := if base.BaseOf? then HashOf(g, base.id) else None;
      var mine, theirs := local.contentStore[le.contentHash], remote.contentStore[re.contentHash];
      && (common == Some(le.contentHash) ==> action == WriteLocal(fileId, re.path, theirs, re.hlcTimestamp, Head(re)))
      && (common == Some(re.contentHash) ==> action == NoOp(fileId))
      && (common != Some(le.contentHash) && common != Some(re.contentHash) ==>
            action == BinaryConflict(
              fileId, le.path, re.path, mine, theirs, le.hlcTimestamp, re.hlcTimestamp, Some(heads)))
  {
  }

  /** Bytes of one content, on whichever side they are staged. */
  ghost predicate Staged(hash: string, local: VaultState, remote: VaultState, bytes: Bytes) {
    || (hash in local.contentStore && local.contentStore[hash] == bytes)
    || (hash in remote.contentStore && remote.contentStore[hash] == bytes)
  }

  /** The remote version as it is, or nothing if its bytes are staged nowhere: never other bytes. */
  ghost predicate TakesRemote(fileId: string, re: FileEntry, local: VaultState, remote: VaultState, action: MergeAction) {
    if re.contentHash in local.contentStore || re.contentHash in remote.contentStore then
      && action.WriteLocal?
      && action == WriteLocal(fileId, re.path, action.content, re.hlcTimestamp, Head(re))
      && Staged(re.contentHash, local, remote, action.content)
    else action == NoOp(fileId)
  }

  /** Different contents on one line of descent: a copy at its head follows a remote descendant, a descendant stays. */
  lemma LineDecision(
    env: Env, view: DagView, g: Graph, fileId: string, le: FileEntry, re: FileEntry, local: VaultState, remote: VaultState)
    requires Answers(view, g) && Head(le).Some? && Head(re).Some?
    requires !le.deleted && !re.deleted && (le.conflictParents.Some? ==> |le.conflictParents.value| < 2) && le.contentHash != re.contentHash
    ensures var action := ClassifyBoth(env, fileId, le, re, local, remote, Some(view));
      var lh, rh := Head(le).value, Head(re).value;
      if HashOf(g, lh) == Some(le.contentHash) && Ancestor(g, lh, rh) then TakesRemote(fileId, re, local, remote, action)
      else Ancestor(g, rh, lh) ==> action == NoOp(fileId)
  {
  }

  /**
   * Diverged contents one of which is not staged: the later clock decides, and its own bytes are written if
   * they are at hand. Nothing else is: the file is not emptied for want of bytes.
   */
  lemma MissingBytesDecision(
    env: Env, view: DagView, g: Graph, fileId: string, le: FileEntry, re: FileEntry, local: VaultState, remote: VaultState)
    requires Answers(view, g) && Head(le).Some? && Head(re).Some? && Diverged(g, le, re)
    requires le.contentHash !in local.contentStore || re.contentHash !in remote.contentStore
    ensures var action := ClassifyBoth(env, fileId, le, re, local, remote, Some(view));
      var mineIsLater := HlcCompare(le.hlcTimestamp, re.hlcTimestamp) >= 0;
      && (action.WriteLocal? <==> if mineIsLater then le.contentHash in local.contentStore else re.contentHash in remote.contentStore)
      && (action.WriteLocal? && mineIsLater ==>
            action == WriteLocal(fileId, le.path, local.contentStore[le.contentHash], le.hlcTimestamp, le.headVersionId))
      && (action.WriteLocal? && !mineIsLater ==>
            action == WriteLocal(fileId, re.path, remote.contentStore[re.contentHash], re.hlcTimestamp, re.headVersionId))
      && (!action.WriteLocal? ==> action == NoOp(fileId))
  {
  }

  /** A file whose conflict is on disk takes a merge node above every open head, and is otherwise left as it is. */
  lemma TwoHeadedDecision(
    env: Env, view: DagView, g: Graph, fileId: string, le: FileEntry, re: FileEntry, local: VaultState, remote: VaultState)
    requires Answers(view, g) && Head(re).Some? && !le.deleted && !re.deleted && le.contentHash != re.contentHash
    requires le.conflictParents.Some? && |le.conflictParents.value| >= 2
    ensures var action := ClassifyBoth(env, fileId, le, re, local, remote, Some(view));
      if SettledAbove(g, le.conflictParents.value, Head(re).value) then TakesRemote(fileId, re, local, remote, action)
      else action == NoOp(fileId)
  {
  }

  /**
   * One content on both sides. At different paths the later move wins. At one path a copy at its head
   * follows a descendant, incomparable heads are joined by a merge node over both, and else it stays.
   */
  lemma SameContentDecision(
    env: Env, view: DagView, g: Graph, fileId: string, le: FileEntry, re: FileEntry, local: VaultState, remote: VaultState)
    requires Answers(view, g) && Head(le).Some? && Head(re).Some?
    requires !le.deleted && !re.deleted && le.contentHash == re.contentHash
    ensures var action := ClassifyBoth(env, fileId, le, re, local, remote, Some(view));
      var lh, rh := Head(le).value, Head(re).value;
      var staged := le.contentHash in local.contentStore || le.contentHash in remote.contentStore;
      && (action == MoveLocal(fileId, le.path, re.path) <==>
            le.path != re.path && HlcCompare(le.hlcTimestamp, re.hlcTimestamp) < 0)
      && (action.WriteLocal? || action.WriteMerge? ==>
            le.path == re.path && HashOf(g, lh) == Some(le.contentHash) && !Ancestor(g, rh, lh) && staged)
      && (le.path == re.path && HashOf(g, lh) == Some(le.contentHash) && !Ancestor(g, rh, lh) && staged ==>
            if Ancestor(g, lh, rh) then TakesRemote(fileId, re, local, remote, action)
            else action.WriteMerge? && action == WriteMerge(fileId, le.path, action.content, [lh, rh])
                 && Staged(le.contentHash, local, remote, action.content))
      && (!action.MoveLocal? && !action.WriteLocal? && !action.WriteMerge? ==> action == NoOp(fileId))
  {
    AncestorSelf(g, Head(le).value);
  }

  /** Live here and deleted there: exactly when the file goes, and otherwise the survivor's bytes go to the user. */
  lemma RemoteDeletedDecision(
    env: Env, view: DagView, g: Graph, fileId: string, le: FileEntry, re: FileEntry, local: VaultState, remote: VaultState)
    requires Answers(view, g) && Head(le).Some? && Head(re).Some? && !le.deleted && re.deleted
    ensures var action := ClassifyBoth(env, fileId, le, re, local, remote, Some(view));
      var lh, rh := Head(le).value, Head(re).value;
      var staged := le.contentHash in local.contentStore || le.contentHash in remote.contentStore;
      if (|Parents(g, rh)| >= 2 && Ancestor(g, lh, rh)) || UnchangedSinceBase(g, le, re) then action == DeleteLocal(fileId, le.path)
      else if staged then
        && action.DeleteConflict? && Staged(le.contentHash, local, remote, action.content)
        && action == DeleteConflict(fileId, le.path, RemoteDeleted, action.content, Some([lh, rh]))
      else action == NoOp(fileId)
  {
    UnchangedIff(view, g, le, re);
  }

  /** Deleted here and live there: a merge node above the deletion brings the file back, else the mirror of the above. */
  lemma LocalDeletedDecision(
    env: Env, view: DagView, g: Graph, fileId: string, le: FileEntry, re: FileEntry, local: VaultState, remote: VaultState)
    requires Answers(view, g) && Head(le).Some? && Head(re).Some? && le.deleted && !re.deleted
    ensures var action := ClassifyBoth(env, fileId, le, re, local, remote, Some(view));
      var lh, rh := Head(le).value, Head(re).value;
      var staged := re.contentHash in local.contentStore || re.contentHash in remote.contentStore;
      if |Parents(g, rh)| >= 2 && Ancestor(g, lh, rh) && staged then TakesRemote(fileId, re, local, remote, action)
      else if UnchangedSinceBase(g, re, le) then action == DeleteRemote(fileId, re.path)
      else if staged then
        && action.DeleteConflict? && Staged(re.contentHash, local, remote, action.content)
        && action == DeleteConflict(fileId, re.path, LocalDeleted, action.content, Some([lh, rh]))
      else action == NoOp(fileId)
  {
    UnchangedIff(view, g, re, le);
  }

  /** A one-sided delete with no common history to go by never deletes: the survivor's bytes go to the user. */
  lemma DeleteWithoutHistory(
    env: Env, fileId: string, le: FileEntry, re: FileEntry, local: VaultState, remote: VaultState, dag: Option<DagView>)
    requires (dag.None? || Head(le).None? || Head(re).None?) && le.deleted != re.deleted
    ensures var action := ClassifyBoth(env, fileId, le, re, local, remote, dag);
      var alive := if le.deleted then re else le;
      if alive.contentHash in local.contentStore || alive.contentHash in remote.contentStore then
        && action.DeleteConflict? && Staged(alive.contentHash, local, remote, action.content)
        && action.fileId == fileId && action.path == alive.path && (action.side == LocalDeleted <==> le.deleted)
      else action == NoOp(fileId)
  {
  }

  /** Two tombstones rest; one content at one path rests where no two different heads are known. */
  lemma AtRestDecision(
    env: Env, fileId: string, le: FileEntry, re: FileEntry, local: VaultState, remote: VaultState, dag: Option<DagView>)
    requires le.deleted == re.deleted && (le.deleted || (le.contentHash == re.contentHash && le.path == re.path))
    requires le.deleted || dag.None? || Head(le).None? || Head(re).None? || Head(le) == Head(re)
    ensures ClassifyBoth(env, fileId, le, re, local, remote, dag) == NoOp(fileId)
  {
  }

  /**
   * A file only the other side knows. At a path no live entry here holds it is written, with its own bytes,
   * if they are staged; where the path is taken the collision rules decide.
   */
  lemma RemoteOnlyDecision(
    env: Env, fileId: string, local: VaultState, remote: VaultState, localIndex: map<string, string>,
    remoteIndex: map<string, string>, dag: Option<DagView>)
    requires WellFormed(local) && LiveIndex(local, localIndex) && fileId !in local.entries && fileId in remote.entries
    ensures var action := ClassifyAndResolve(env, fileId, local, remote, localIndex, remoteIndex, dag);
      var re := remote.entries[fileId];
      var taken := exists id :: id in local.entries && !local.entries[id].deleted && local.entries[id].path == re.path;
      && (re.deleted ==> action == NoOp(fileId))
      && (!re.deleted && !taken ==>
            action == if re.contentHash in remote.contentStore then
              WriteLocal(fileId, re.path, remote.contentStore[re.contentHash], re.hlcTimestamp, re.headVersionId)
            else NoOp(fileId))
      && (!re.deleted && taken ==> exists id ::
            && id in local.entries && !local.entries[id].deleted && local.entries[id].path == re.path
            && action == ResolveCreateCollision(env, local.entries[id], re, local, remote, true, dag))
  {
    var re := remote.entries[fileId];
    IndexedIff(local, localIndex, re.path);
  }

  /** A file only this side knows is sent if it is live and its path is free over there. */
  lemma LocalOnlyDecision(
    env: Env, fileId: string, local: VaultState, remote: VaultState, localIndex: map<string, string>,
    remoteIndex: map<string, string>, dag: Option<DagView>)
    requires WellFormed(remote) && LiveIndex(remote, remoteIndex) && fileId in local.entries && fileId !in remote.entries
    ensures var action := ClassifyAndResolve(env, fileId, local, remote, localIndex, remoteIndex, dag);
      var le := local.entries[fileId];
      var taken := exists id :: id in remote.entries && !remote.entries[id].deleted && remote.entries[id].path == le.path;
      && (le.deleted ==> action == NoOp(fileId))
      && (!le.deleted && !taken ==> action == SendRemote(fileId, le.path, le.hlcTimestamp))
      && (!le.deleted && taken ==> exists id ::
            && id in remote.entries && !remote.entries[id].deleted && remote.entries[id].path == le.path
            && action == ResolveCreateCollision(env, le, remote.entries[id], local, remote, false, dag))
  {
    var le := local.entries[fileId];
    IndexedIff(remote, remoteIndex, le.path);
  }

  /** A path is indexed exactly if a live entry holds it, and leads to such an entry. */
  lemma IndexedIff(s: VaultState, index: map<string, string>, path: string)
    requires WellFormed(s) && LiveIndex(s, index)
    ensures path in index ==>
      index[path] in s.entries && !s.entries[index[path]].deleted && s.entries[index[path]].path == path
    ensures (exists id :: id in s.entries && !s.entries[id].deleted && s.entries[id].path == path) ==> path in index
  {
    if path in index {
      var j: nat :| LastAt(s, |s.ids|, j, path) && s.ids[j] == index[path];
    }
    if id :| id in s.entries && !s.entries[id].deleted && s.entries[id].path == path {
      var j: nat :| j < |s.ids| && s.ids[j] == id;
      assert LiveAt(s, j, path);
    }
  }

  /**
   * No common history to go by: no graph, or a head that is not known. Diverged texts are merged against
   * nothing, and a clean result is written without a head, under the later of the two clocks.
   */
  lemma NoHistoryDecision(
    env: Env, fileId: string, le: FileEntry, re: FileEntry, local: VaultState, remote: VaultState, dag: Option<DagView>)
    requires dag.None? || Head(le).None? || Head(re).None?
    requires !le.deleted && !re.deleted && (le.conflictParents.Some? ==> |le.conflictParents.value| < 2) && le.contentHash != re.contentHash
    requires le.contentHash in local.contentStore && re.contentHash in remote.contentStore
    requires !IsBinary(local.contentStore[le.contentHash]) && !IsBinary(remote.contentStore[re.contentHash])
    ensures var action := ClassifyBoth(env, fileId, le, re, local, remote, dag);
      var l, r := env.decode(local.contentStore[le.contentHash]), env.decode(remote.contentStore[re.contentHash]);
      var merged := ThreeWayText(env, "", l, r);
      var path := if HlcCompare(le.hlcTimestamp, re.hlcTimestamp) >= 0 then le.path else re.path;
      var content := env.encode(Text.Join(merged.merged, Text.LF));
      var heads := if Head(le).Some? && Head(re).Some? then Some([Head(le).value, Head(re).value]) else None;
      action ==
        if merged.hasConflicts then TextConflict(fileId, le.path, re.path, merged, l, r, heads)
        else if heads.Some? then WriteMerge(fileId, path, content, heads.value)
        else WriteLocal(fileId, path, content, HlcMax(le.hlcTimestamp, re.hlcTimestamp), None)
  {
  }

  // --------------------------------------------------------------- two ids at one path

  /** The entry created later keeps its id; of two created at once, the greater id. */
  ghost predicate Outranks(e: FileEntry, other: FileEntry) {
    var cmp := HlcCompare(e.hlcTimestamp, other.hlcTimestamp);
    cmp > 0 || (cmp == 0 && StringLess(other.id, e.id))
  }

  /** The remote id is to be kept: its version descends from ours, or it outranks our entry of the same content. */
  ghost predicate KeepsRemoteId(g: Graph, le: FileEntry, re: FileEntry)
    requires Head(le).Some? && Head(re).Some?
  {
    var lh, rh := Head(le).value, Head(re).value;
    Ancestor(g, lh, rh) || (!Ancestor(g, rh, lh) && le.contentHash == re.contentHash && !Outranks(le, re))
  }

  /**
   * What either branch of a create collision does: the remote id is taken over by the branch for it, with
   * the remote bytes or, if they are not staged, the local entry's; unrelated contents go to the user once,
   * in the branch of the entry that outranks the other; all else is left as it is.
   */
  lemma CollisionDecision(
    env: Env, view: DagView, g: Graph, le: FileEntry, re: FileEntry, local: VaultState, remote: VaultState, selfIsRemote: bool)
    requires Answers(view, g) && Head(le).Some? && Head(re).Some? && le.id != re.id
    ensures var action := ResolveCreateCollision(env, le, re, local, remote, selfIsRemote, Some(view));
      var lh, rh := Head(le).value, Head(re).value;
      var mineStaged, theirsStaged := le.contentHash in local.contentStore, re.contentHash in remote.contentStore;
      var clash := !Ancestor(g, lh, rh) && !Ancestor(g, rh, lh) && le.contentHash != re.contentHash
        && mineStaged && theirsStaged && (selfIsRemote <==> Outranks(re, le));
      && (action.WriteLocal? <==> selfIsRemote && KeepsRemoteId(g, le, re) && (theirsStaged || mineStaged))
      && (action.WriteLocal? ==> action == WriteLocal(re.id, re.path,
            if theirsStaged then remote.contentStore[re.contentHash] else local.contentStore[le.contentHash],
            re.hlcTimestamp, re.headVersionId))
      && (action.TextConflict? <==> clash)
      && (clash ==>
            && action.fileId == (if selfIsRemote then re.id else le.id)
            && action.localContent == env.decode(local.contentStore[le.contentHash])
            && action.remoteContent == env.decode(remote.contentStore[re.contentHash])
            && action.localPath == le.path && action.remotePath == re.path && action.conflictHeads == Some([lh, rh]))
      && (!action.WriteLocal? && !action.TextConflict? ==> action == NoOp(if selfIsRemote then re.id else le.id))
  {
    RankIsTotal(le, re);
  }

  lemma RankIsTotal(le: FileEntry, re: FileEntry)
    requires le.id != re.id
    ensures Outranks(le, re) <==> !Outranks(re, le)
    ensures PickCollisionWinner(le, re) == if Outranks(le, re) then le else re
  {
    CompareIsTotalOrder(le.hlcTimestamp, re.hlcTimestamp, le.hlcTimestamp);
    StringLessTotal(le.id, re.id);
  }

  /**
   * So a peer's resolution whose bytes are not staged is adopted by name only: the local entry's own bytes
   * are written under the remote id and head. It takes exactly a remote descendant with other content whose
   * bytes are missing while the local ones are there.
   */
  lemma ForeignBytesUnderRemoteHead(
    env: Env, view: DagView, g: Graph, le: FileEntry, re: FileEntry, local: VaultState, remote: VaultState)
    requires Answers(view, g) && Head(le).Some? && Head(re).Some? && le.id != re.id && le.contentHash != re.contentHash
    ensures var action := ResolveCreateCollision(env, le, re, local, remote, true, Some(view));
      re.contentHash !in remote.contentStore && action.WriteLocal? <==>
        && Ancestor(g, Head(le).value, Head(re).value)
        && re.contentHash !in remote.contentStore && le.contentHash in local.contentStore
  {
    CollisionDecision(env, view, g, le, re, local, remote, true);
  }

  /** An input: the peer merged the two files, and its merge is known here by its version alone. */
  lemma ResolutionWithoutItsBytes(env: Env, view: DagView, clock: HLC)
    requires Answers(view, map["h" := Node({}, "old", "a"), "j" := Node({}, "other", "b"), "k" := Node({"h", "j"}, "new", "b")])
    ensures var le := FileEntry("a", "note", "old", clock, false, None, Some("h"), None, None);
      var re := FileEntry("b", "note", "new", clock, false, None, Some("k"), None, None);
      var local := VaultState(clock, ["a"], map["a" := le], map["old" := [1]]);
      var remote := VaultState(clock, ["b"], map["b" := re], map[]);
      ResolveCreateCollision(env, le, re, local, remote, true, Some(view)) == WriteLocal("b", "note", [1], clock, Some("k"))
  {
    var g := map["h" := Node({}, "old", "a"), "j" := Node({}, "other", "b"), "k" := Node({"h", "j"}, "new", "b")];
    AncestorSelf(g, "h");
    assert "h" in Parents(g, "k");
    AncestorParent(g, "h", "k", "h");
  }
}
