/** What the merge decision promises: mirror images on two devices, and no silent overwrite. */
module StateMergeLaws {
  import opened Base
  import opened Hlc
  import opened Vault
  import opened VersionGraph
  import opened StateMerge
  import opened ThreeWay
  import opened ThreeWayLaws
  import Diff
  import Text

  /** The view answers from the graph. */
  ghost predicate Answers(view: DagView, g: Graph) {
    && (forall a, d :: view.isAncestor(a, d) <==> Ancestor(g, a, d))
    && (forall a, b :: view.mergeBase(a, b) == MergeBaseOf(g, a, b))
    && (forall v :: view.isMergeNode(v) <==> |Parents(g, v)| >= 2)
    && (forall v :: view.contentHashOf(v) == HashOf(g, v))
  }

  /** The line diff is an exact, coalesced edit script, as `Diff.DiffLines` is. */
  ghost predicate ExactDiff(env: Env) {
    forall a, b :: Diff.Spells(env.diff(a, b), a, b) && Diff.Coalesced(env.diff(a, b))
  }

  /** Every graph has such a view. */
  lemma ViewOf(g: Graph) returns (view: DagView)
    ensures Answers(view, g)
  {
    view := DagView(
      (a, d) => Ancestor(g, a, d), (a, b) => MergeBaseOf(g, a, b), v => |Parents(g, v)| >= 2, v => HashOf(g, v));
  }

  /** There is an exact, coalesced script between any two texts, so the hypothesis can be met with any text codec. */
  lemma ExactEnv(decode: Bytes -> string, encode: string -> Bytes) returns (env: Env)
    ensures ExactDiff(env) && env.decode == decode && env.encode == encode
  {
    env := Env(decode, encode, Replace);
    forall a, b ensures Diff.Spells(env.diff(a, b), a, b) && Diff.Coalesced(env.diff(a, b)) {
      ReplaceIsExact(a, b);
    }
  }

  lemma ReplaceIsExact(a: seq<string>, b: seq<string>)
    ensures Diff.Spells(Replace(a, b), a, b) && Diff.Coalesced(Replace(a, b))
  {
    Diff.SpellsAppend(Script(Diff.Delete, a), Script(Diff.Insert, b));
    ScriptSpells(Diff.Delete, a);
    ScriptSpells(Diff.Insert, b);
    NilConcat(a);
    NilConcat(b);
  }

  lemma ScriptSpells(kind: Diff.OpKind, lines: seq<string>)
    ensures Diff.Source(Script(kind, lines)) == if kind == Diff.Insert then [] else lines
    ensures Diff.Target(Script(kind, lines)) == if kind == Diff.Delete then [] else lines
  {
    Diff.SpellsOne(Diff.DiffOp(kind, lines));
  }

  function Script(kind: Diff.OpKind, lines: seq<string>): seq<Diff.DiffOp> {
    if lines == [] then [] else [Diff.DiffOp(kind, lines)]
  }

  function Replace(a: seq<string>, b: seq<string>): seq<Diff.DiffOp> {
    Script(Diff.Delete, a) + Script(Diff.Insert, b)
  }

  /** A live file whose bytes are staged and are those of its one head. */
  ghost predicate AtHead(g: Graph, s: VaultState, e: FileEntry) {
    && !e.deleted && !TwoHeaded(e) && e.contentHash in s.contentStore
    && Head(e).Some? && HashOf(g, Head(e).value) == Some(e.contentHash)
  }

  /** One hash names one content, on whichever device it is staged. */
  ghost predicate SameBytes(local: VaultState, remote: VaultState) {
    forall h :: h in local.contentStore && h in remote.contentStore ==> local.contentStore[h] == remote.contentStore[h]
  }

  // --------------------------------------------------------------- mirrored texts

  ghost function TextHunks(env: Env, anc: seq<string>, variant: seq<string>): seq<Hunk> {
    HunksFrom(env.diff(anc, variant), 0, None)
  }

  /** The two sides inserted at one gap of the ancestor, and no short cut settles the texts. */
  ghost predicate DivergentTexts(env: Env, ancestorText: string, localText: string, remoteText: string) {
    var anc, local, remote :=
      Text.NormalizeLines(ancestorText), Text.NormalizeLines(localText), Text.NormalizeLines(remoteText);
    !ShortCut(anc, local, remote) && DivergentInsertions(TextHunks(env, anc, local), TextHunks(env, anc, remote))
  }

  ghost predicate SwappedConflicts(here: MergeResult, there: MergeResult) {
    && here.hasConflicts == there.hasConflicts
    && |here.conflicts| == |there.conflicts|
    && forall k :: 0 <= k < |here.conflicts| ==> SwappedChunk(here.conflicts[k], there.conflicts[k])
  }

  lemma TextHunksPending(env: Env, anc: seq<string>, variant: seq<string>)
    requires ExactDiff(env)
    ensures Pending(TextHunks(env, anc, variant), |anc|) && Separated(TextHunks(env, anc, variant))
  {
    HunksMeanVariant(anc, variant, env.diff(anc, variant));
    assert Ordered(TextHunks(env, anc, variant), 0, |anc|);
  }

  /**
   * The text merge on the other device: the same conflicts with the sides exchanged, and without
   * conflicts the same text exactly when no two insertions at one gap show their order.
   */
  lemma ThreeWayTextSwaps(env: Env, ancestorText: string, localText: string, remoteText: string)
    requires ExactDiff(env)
    ensures var here, there :=
        ThreeWayText(env, ancestorText, localText, remoteText), ThreeWayText(env, ancestorText, remoteText, localText);
      && SwappedConflicts(here, there)
      && (!here.hasConflicts ==>
            (there.merged == here.merged <==> !DivergentTexts(env, ancestorText, localText, remoteText)))
  {
    var anc, local, remote :=
      Text.NormalizeLines(ancestorText), Text.NormalizeLines(localText), Text.NormalizeLines(remoteText);
    if ShortCut(anc, local, remote) {
      ShortCutSwaps(env, anc, local, remote);
    } else {
      TextHunksPending(env, anc, local);
      TextHunksPending(env, anc, remote);
      MergeSwaps(anc, TextHunks(env, anc, local), TextHunks(env, anc, remote));
      if !ThreeWayText(env, ancestorText, localText, remoteText).hasConflicts {
        CleanMergeAgrees(anc, TextHunks(env, anc, local), TextHunks(env, anc, remote));
      }
    }
  }

  lemma ShortCutSwaps(env: Env, anc: seq<string>, local: seq<string>, remote: seq<string>)
    requires |local| >= 1 && |remote| >= 1 && Text.CleanLines(local) && Text.CleanLines(remote)
    requires ShortCut(anc, local, remote)
    ensures MergeLines(anc, local, remote, env.diff(anc, local), env.diff(anc, remote))
         == MergeLines(anc, remote, local, env.diff(anc, remote), env.diff(anc, local))
    ensures MergeLines(anc, local, remote, env.diff(anc, local), env.diff(anc, remote)).conflicts == []
    ensures !MergeLines(anc, local, remote, env.diff(anc, local), env.diff(anc, remote)).hasConflicts
  {
    if Text.Join(local, Text.LF) == Text.Join(remote, Text.LF) {
      Text.JoinInjective(local, remote);
    }
  }

  // -------------------------------------------------------------- mirrored actions

  /** The device takes the other side's version as it is. */
  ghost predicate Adopts(action: MergeAction, fileId: string, e: FileEntry, s: VaultState)
    requires e.contentHash in s.contentStore
  {
    action == WriteLocal(fileId, e.path, s.contentStore[e.contentHash], e.hlcTimestamp, Head(e))
  }

  /** The text both devices merge against. */
  ghost function CommonText(
    env: Env, le: FileEntry, re: FileEntry, local: VaultState, remote: VaultState, dag: Option<DagView>): string
  {
    AncestorText(env, AncestorContent(ResolveThreeWayBase(le, re, dag), local, remote))
  }

  /** Two devices reconciling one file reach opposite views of one outcome. */
  ghost predicate MirrorImages(
    fileId: string, le: FileEntry, re: FileEntry, local: VaultState, remote: VaultState,
    here: MergeAction, there: MergeAction, orderShows: bool)
    requires le.contentHash in local.contentStore && re.contentHash in remote.contentStore
  {
    || (here == there == NoOp(fileId) && le.path == re.path && le.contentHash == re.contentHash && Head(le) == Head(re))
    || (here == NoOp(fileId) && Adopts(there, fileId, le, local))
    || (there == NoOp(fileId) && Adopts(here, fileId, re, remote))
    || (here == NoOp(fileId) && there == MoveLocal(fileId, re.path, le.path) && le.contentHash == re.contentHash)
    || (there == NoOp(fileId) && here == MoveLocal(fileId, le.path, re.path) && le.contentHash == re.contentHash)
    || SameMergeNode(fileId, le, re, here, there, orderShows)
    || SameTextConflict(fileId, le, re, here, there)
    || (&& here.BinaryConflict? && Head(le).Some? && Head(re).Some?
        && here == BinaryConflict(fileId, le.path, re.path, here.localBytes, here.remoteBytes,
             le.hlcTimestamp, re.hlcTimestamp, Some([Head(le).value, Head(re).value]))
        && there == BinaryConflict(fileId, re.path, le.path, here.remoteBytes, here.localBytes,
             re.hlcTimestamp, le.hlcTimestamp, Some([Head(re).value, Head(le).value])))
  }

  /** Both devices record a merge of the two heads, at one path, with the same bytes. */
  ghost predicate SameMergeNode(
    fileId: string, le: FileEntry, re: FileEntry, here: MergeAction, there: MergeAction, orderShows: bool)
  {
    && here.WriteMerge? && there.WriteMerge? && here.fileId == there.fileId == fileId
    && here.path == there.path && Head(le).Some? && Head(re).Some?
    && here.parents == [Head(le).value, Head(re).value] && there.parents == [Head(re).value, Head(le).value]
    && (!orderShows ==> here.content == there.content)
  }

  ghost predicate SameTextConflict(fileId: string, le: FileEntry, re: FileEntry, here: MergeAction, there: MergeAction) {
    && here.TextConflict? && there.TextConflict? && here.fileId == there.fileId == fileId
    && here.localPath == there.remotePath == le.path && here.remotePath == there.localPath == re.path
    && here.localContent == there.remoteContent && here.remoteContent == there.localContent
    && here.mergeResult.hasConflicts && SwappedConflicts(here.mergeResult, there.mergeResult)
    && Head(le).Some? && Head(re).Some?
    && here.conflictHeads == Some([Head(le).value, Head(re).value])
    && there.conflictHeads == Some([Head(re).value, Head(le).value])
  }

  /** The hypotheses of the mirror law for one file. */
  ghost predicate Meeting(
    env: Env, view: DagView, g: Graph, le: FileEntry, re: FileEntry, local: VaultState, remote: VaultState)
  {
    && Answers(view, g) && Acyclic(g) && ExactDiff(env) && SameBytes(local, remote)
    && AtHead(g, local, le) && AtHead(g, remote, re)
    && le.hlcTimestamp != re.hlcTimestamp
  }

  lemma NoTwoWayAncestry(g: Graph, a: string, b: string)
    requires Acyclic(g) && Ancestor(g, a, b) && Ancestor(g, b, a)
    ensures a == b
  {
    AncestorIsSelfOrProper(g, a, b);
    if a != b {
      ProperThen(g, a, b, a);
    }
  }

  lemma HlcDecides(a: HLC, b: HLC)
    requires a != b
    ensures HlcCompare(a, b) >= 0 <==> HlcCompare(b, a) < 0
  {
    CompareIsTotalOrder(a, b, a);
  }

  lemma MirrorSameContent(
    env: Env, view: DagView, g: Graph, fileId: string, le: FileEntry, re: FileEntry, local: VaultState, remote: VaultState)
    requires Meeting(env, view, g, le, re, local, remote) && le.contentHash == re.contentHash
    ensures MirrorImages(fileId, le, re, local, remote,
      ResolveSameContent(fileId, le, re, local, remote, Some(view)),
      ResolveSameContent(fileId, re, le, remote, local, Some(view)), false)
  {
    HlcDecides(le.hlcTimestamp, re.hlcTimestamp);
    var lh, rh := Head(le).value, Head(re).value;
    if Ancestor(g, lh, rh) && Ancestor(g, rh, lh) {
      NoTwoWayAncestry(g, lh, rh);
    }
  }

  lemma BaseSwaps(view: DagView, g: Graph, le: FileEntry, re: FileEntry)
    requires Answers(view, g)
    ensures ResolveThreeWayBase(re, le, Some(view)) == ResolveThreeWayBase(le, re, Some(view))
  {
    if Head(le).Some? && Head(re).Some? {
      MergeBaseSymmetric(g, Head(le).value, Head(re).value);
    }
  }

  lemma MirrorBinary(
    env: Env, view: DagView, g: Graph, fileId: string, le: FileEntry, re: FileEntry, local: VaultState, remote: VaultState)
    requires Meeting(env, view, g, le, re, local, remote) && le.contentHash != re.contentHash
    requires IsBinary(local.contentStore[le.contentHash]) || IsBinary(remote.contentStore[re.contentHash])
    ensures var l, r, dag := local.contentStore[le.contentHash], remote.contentStore[re.contentHash], Some(view);
      MirrorImages(fileId, le, re, local, remote,
        ResolveDivergence(env, fileId, le, re, local, remote, dag, l, r),
        ResolveDivergence(env, fileId, re, le, remote, local, dag, r, l), false)
  {
    BaseSwaps(view, g, le, re);
  }

  lemma MirrorText(
    env: Env, view: DagView, g: Graph, fileId: string, le: FileEntry, re: FileEntry, local: VaultState, remote: VaultState)
    requires Meeting(env, view, g, le, re, local, remote) && le.contentHash != re.contentHash
    requires !IsBinary(local.contentStore[le.contentHash]) && !IsBinary(remote.contentStore[re.contentHash])
    ensures var l, r, dag := local.contentStore[le.contentHash], remote.contentStore[re.contentHash], Some(view);
      var here := ResolveDivergence(env, fileId, le, re, local, remote, dag, l, r);
      var there := ResolveDivergence(env, fileId, re, le, remote, local, dag, r, l);
      || SameTextConflict(fileId, le, re, here, there)
      || SameMergeNode(fileId, le, re, here, there,
           DivergentTexts(env, CommonText(env, le, re, local, remote, dag), env.decode(l), env.decode(r)))
  {
    var l, r, dag := local.contentStore[le.contentHash], remote.contentStore[re.contentHash], Some(view);
    HlcDecides(le.hlcTimestamp, re.hlcTimestamp);
    BaseSwaps(view, g, le, re);
    var base := ResolveThreeWayBase(le, re, dag);
    assert AncestorContent(base, local, remote) == AncestorContent(base, remote, local);
    ThreeWayTextSwaps(env, CommonText(env, le, re, local, remote, dag), env.decode(l), env.decode(r));
  }

  /**
   * Two devices that reconcile one live file, each at its head, reach mirror images: one adopts and
   * the other keeps, one follows the rename and the other keeps, both record the same merge of the
   * two heads, or both raise the same conflict with the sides exchanged. The merged bytes agree
   * unless two insertions at one gap show their order.
   */
  lemma MirrorOutcomes(
    env: Env, view: DagView, g: Graph, fileId: string, local: VaultState, remote: VaultState,
    localIndex: map<string, string>, remoteIndex: map<string, string>)
    requires fileId in local.entries && fileId in remote.entries
    requires Meeting(env, view, g, local.entries[fileId], remote.entries[fileId], local, remote)
    ensures var le, re, dag := local.entries[fileId], remote.entries[fileId], Some(view);
      var l, r := local.contentStore[le.contentHash], remote.contentStore[re.contentHash];
      MirrorImages(fileId, le, re, local, remote,
        ClassifyAndResolve(env, fileId, local, remote, localIndex, remoteIndex, dag),
        ClassifyAndResolve(env, fileId, remote, local, remoteIndex, localIndex, dag),
        DivergentTexts(env, CommonText(env, le, re, local, remote, dag), env.decode(l), env.decode(r)))
  {
    var le, re := local.entries[fileId], remote.entries[fileId];
    var lh, rh := Head(le).value, Head(re).value;
    if le.contentHash == re.contentHash {
      MirrorSameContent(env, view, g, fileId, le, re, local, remote);
    } else if !Ancestor(g, lh, rh) && !Ancestor(g, rh, lh) {
      if IsBinary(local.contentStore[le.contentHash]) || IsBinary(remote.contentStore[re.contentHash]) {
        MirrorBinary(env, view, g, fileId, le, re, local, remote);
      } else {
        MirrorText(env, view, g, fileId, le, re, local, remote);
      }
    } else if Ancestor(g, lh, rh) && Ancestor(g, rh, lh) {
      NoTwoWayAncestry(g, lh, rh);
    }
  }

  /** On linear history the descendant's version is the one both devices end with. */
  lemma DescendantWins(
    env: Env, view: DagView, g: Graph, fileId: string, le: FileEntry, re: FileEntry, local: VaultState, remote: VaultState)
    requires Meeting(env, view, g, le, re, local, remote)
    requires le.contentHash != re.contentHash || le.path == re.path
    requires ProperAncestor(g, Head(le).value, Head(re).value)
    ensures Adopts(ClassifyBoth(env, fileId, le, re, local, remote, Some(view)), fileId, re, remote)
    ensures ClassifyBoth(env, fileId, re, le, remote, local, Some(view)) == NoOp(fileId)
  {
    var lh, rh := Head(le).value, Head(re).value;
    AncestorIsSelfOrProper(g, lh, rh);
    if Ancestor(g, rh, lh) {
      NoTwoWayAncestry(g, lh, rh);
    }
  }

  /** Any id computed from the content and the set of parents comes out the same on both devices. */
  lemma MergeIdAgrees(
    mergeVersionId: (Bytes, set<string>) -> string, fileId: string, le: FileEntry, re: FileEntry,
    here: MergeAction, there: MergeAction)
    requires SameMergeNode(fileId, le, re, here, there, false)
    ensures mergeVersionId(here.content, SetOf(here.parents)) == mergeVersionId(there.content, SetOf(there.parents))
  {
    assert SetOf(here.parents) == SetOf(there.parents);
  }

  // ---------------------------------------------------------- one-sided deletes

  /** The live side drops its copy as the other confirms, or both raise the same conflict with the sides exchanged. */
  ghost predicate MirrorDeletes(
    fileId: string, live: FileEntry, dead: FileEntry, holder: MergeAction, deleter: MergeAction)
  {
    || (holder == DeleteLocal(fileId, live.path) && deleter == DeleteRemote(fileId, live.path))
    || (&& holder.DeleteConflict? && Head(live).Some? && Head(dead).Some?
        && holder == DeleteConflict(fileId, live.path, RemoteDeleted, holder.content, Some([Head(live).value, Head(dead).value]))
        && deleter == DeleteConflict(fileId, live.path, LocalDeleted, holder.content, Some([Head(dead).value, Head(live).value])))
  }

  /** `above` is a merge node over `below`: a device settled the file there. */
  ghost predicate SettledBy(g: Graph, below: string, above: string) {
    |Parents(g, above)| >= 2 && Ancestor(g, below, above)
  }

  ghost predicate Renamed(survivor: FileEntry, other: FileEntry) {
    var synced := OrElse(survivor.lastSyncedPath, other.lastSyncedPath);
    synced.Some? && survivor.path != synced.value
  }

  /**
   * A file one device deleted and the other holds at its head: the two devices reach mirror images
   * exactly when no merge node above the deletion restored it, and no merge node above the live head
   * settled the deletion of a file renamed meanwhile. With a restoring merge node that names the
   * content the deletion names, and no rename, the holder deletes the file that the deleter restores.
   */
  lemma OneSidedDeleteMirrors(
    env: Env, view: DagView, g: Graph, fileId: string, live: FileEntry, dead: FileEntry, holds: VaultState, deleted: VaultState)
    requires Answers(view, g) && Acyclic(g) && SameBytes(holds, deleted) && AtHead(g, holds, live)
    requires dead.deleted && Head(dead).Some? && Head(dead) != Head(live)
    ensures var lh, dh, content := Head(live).value, Head(dead).value, holds.contentStore[live.contentHash];
      var holder := ClassifyBoth(env, fileId, live, dead, holds, deleted, Some(view));
      var deleter := ClassifyBoth(env, fileId, dead, live, deleted, holds, Some(view));
      && (MirrorDeletes(fileId, live, dead, holder, deleter) <==>
            !SettledBy(g, dh, lh) && !(SettledBy(g, lh, dh) && Renamed(live, dead)))
      && (SettledBy(g, dh, lh) ==> deleter == WriteLocal(fileId, live.path, content, live.hlcTimestamp, Head(live)))
      && (holder.DeleteLocal? && deleter.WriteLocal? <==>
            SettledBy(g, dh, lh) && !Renamed(live, dead) && HashOf(g, dh) == Some(live.contentHash))
  {
    var lh, dh := Head(live).value, Head(dead).value;
    MergeBaseSymmetric(g, lh, dh);
    if Ancestor(g, lh, dh) {
      MergeBaseOfLine(g, lh, dh);
    }
    if Ancestor(g, dh, lh) {
      MergeBaseOfLine(g, dh, lh);
    }
    if Ancestor(g, lh, dh) && Ancestor(g, dh, lh) {
      NoTwoWayAncestry(g, lh, dh);
    }
  }

  /** A restored file that the other device deletes: the merge node over both versions names the deletion's content. */
  lemma RestoredFileIsDeleted(env: Env, view: DagView, clock: HLC)
    requires Answers(view, map["l" := Node({}, "c", "f"), "d" := Node({"l"}, "c", "f"), "r" := Node({"l", "d"}, "c", "f")])
    ensures var live := FileEntry("f", "note", "c", clock, false, None, Some("r"), None, None);
      var dead := FileEntry("f", "note", "c", clock, true, None, Some("d"), None, None);
      var holds := VaultState(clock, ["f"], map["f" := live], map["c" := [1]]);
      var deleted := VaultState(clock, ["f"], map["f" := dead], map["c" := [1]]);
      && ClassifyBoth(env, "f", live, dead, holds, deleted, Some(view)) == DeleteLocal("f", "note")
      && ClassifyBoth(env, "f", dead, live, deleted, holds, Some(view)) == WriteLocal("f", "note", [1], clock, Some("r"))
  {
    var g := map["l" := Node({}, "c", "f"), "d" := Node({"l"}, "c", "f"), "r" := Node({"l", "d"}, "c", "f")];
    var live := FileEntry("f", "note", "c", clock, false, None, Some("r"), None, None);
    var dead := FileEntry("f", "note", "c", clock, true, None, Some("d"), None, None);
    var holds := VaultState(clock, ["f"], map["f" := live], map["c" := [1]]);
    var deleted := VaultState(clock, ["f"], map["f" := dead], map["c" := [1]]);
    RankedIsAcyclic(g, v => if v == "r" then 2 else if v == "d" then 1 else 0);
    AncestorSelf(g, "d");
    AncestorParent(g, "d", "r", "d");
    OneSidedDeleteMirrors(env, view, g, "f", live, dead, holds, deleted);
  }

  // ----------------------------------------------------------- no silent overwrite

  /** Both versions' bytes are staged and both heads are known. */
  ghost predicate Known(view: DagView, g: Graph, le: FileEntry, re: FileEntry, local: VaultState, remote: VaultState) {
    && Answers(view, g) && Head(le).Some? && Head(re).Some?
    && le.contentHash in local.contentStore && re.contentHash in remote.contentStore
  }

  /** Every hunk of `variant` against `anc` is a run of `merged`. */
  ghost predicate Carries(env: Env, anc: seq<string>, variant: seq<string>, merged: seq<string>) {
    forall h :: h in TextHunks(env, anc, variant) ==> Occurs(h.lines, merged)
  }

  /** Every hunk of `variant` against `anc` is a run of `merged`, or what a conflict offers as the remote side. */
  ghost predicate Offers(env: Env, anc: seq<string>, variant: seq<string>, result: MergeResult) {
    forall h :: h in TextHunks(env, anc, variant) ==>
      Occurs(h.lines, result.merged) || exists c :: c in result.conflicts && c.remote == h.lines
  }

  /** What a merge of two texts against a common one may put on disk. */
  ghost predicate HoldsBothSides(env: Env, anc: seq<string>, local: seq<string>, remote: seq<string>, result: MergeResult) {
    if local == remote || remote == anc then result == MergeResult(local, [], false)
    else if local == anc then result == MergeResult(remote, [], false)
    else Carries(env, anc, local, result.merged) && Offers(env, anc, remote, result)
  }

  /** The text merge drops neither side: a side equal to the ancestor has no hunks, others keep all of theirs. */
  lemma MergeHoldsBothSides(env: Env, ancestorText: string, localText: string, remoteText: string)
    ensures HoldsBothSides(env, Text.NormalizeLines(ancestorText), Text.NormalizeLines(localText),
      Text.NormalizeLines(remoteText), ThreeWayText(env, ancestorText, localText, remoteText))
  {
    var anc, local, remote :=
      Text.NormalizeLines(ancestorText), Text.NormalizeLines(localText), Text.NormalizeLines(remoteText);
    ShortCutIsEquality(anc, local, remote);
    if !ShortCut(anc, local, remote) {
      var ls, rs := TextHunks(env, anc, local), TextHunks(env, anc, remote);
      forall h | h in ls ensures Occurs(h.lines, MergeHunks(anc, ls, rs).merged) {
        var i: nat :| i < |ls| && ls[i] == h;
        LocalLinesSurvive(anc, ls, rs, i);
      }
      forall h | h in rs
        ensures Occurs(h.lines, MergeHunks(anc, ls, rs).merged)
          || exists c :: c in MergeHunks(anc, ls, rs).conflicts && c.remote == h.lines
      {
        var i: nat :| i < |rs| && rs[i] == h;
        RemoteLinesSurvive(anc, ls, rs, i);
      }
    }
  }

  /** The short cuts compare joined texts, which for normalised lines is comparing the lines. */
  lemma ShortCutIsEquality(anc: seq<string>, local: seq<string>, remote: seq<string>)
    requires |anc| >= 1 && |local| >= 1 && |remote| >= 1
    requires Text.CleanLines(anc) && Text.CleanLines(local) && Text.CleanLines(remote)
    ensures ShortCut(anc, local, remote) <==> local == remote || local == anc || remote == anc
    ensures Text.Join(local, Text.LF) == Text.Join(remote, Text.LF) <==> local == remote
    ensures Text.Join(local, Text.LF) == Text.Join(anc, Text.LF) <==> local == anc
    ensures Text.Join(remote, Text.LF) == Text.Join(anc, Text.LF) <==> remote == anc
  {
    if Text.Join(local, Text.LF) == Text.Join(remote, Text.LF) {
      Text.JoinInjective(local, remote);
    }
    if Text.Join(local, Text.LF) == Text.Join(anc, Text.LF) {
      Text.JoinInjective(local, anc);
    }
    if Text.Join(remote, Text.LF) == Text.Join(anc, Text.LF) {
      Text.JoinInjective(remote, anc);
    }
  }

  /**
   * Diverged text is merged or put to the user, never replaced. The bytes of a merge are the clean
   * three-way merge against the common text, and every change of either side is in them; a conflict
   * raised by that merge holds every local change and offers every remote one.
   */
  lemma DivergedTextIsNeverReplaced(
    env: Env, view: DagView, g: Graph, fileId: string, le: FileEntry, re: FileEntry, local: VaultState, remote: VaultState)
    requires Known(view, g, le, re, local, remote) && !le.deleted && !re.deleted && !TwoHeaded(le)
    requires !Ancestor(g, Head(le).value, Head(re).value) && !Ancestor(g, Head(re).value, Head(le).value)
    requires le.contentHash != re.contentHash
    requires !IsBinary(local.contentStore[le.contentHash]) && !IsBinary(remote.contentStore[re.contentHash])
    ensures var action := ClassifyBoth(env, fileId, le, re, local, remote, Some(view));
      var heads := [Head(le).value, Head(re).value];
      var common := CommonText(env, le, re, local, remote, Some(view));
      var l, r := env.decode(local.contentStore[le.contentHash]), env.decode(remote.contentStore[re.contentHash]);
      var result := ThreeWayText(env, common, l, r);
      && HoldsBothSides(env, Text.NormalizeLines(common), Text.NormalizeLines(l), Text.NormalizeLines(r), result)
      && (|| (&& action.WriteMerge? && action.parents == heads && !result.hasConflicts
              && action.content == env.encode(Text.Join(result.merged, Text.LF)))
          || (&& action.TextConflict? && action.conflictHeads == Some(heads)
              && action.localContent == l && action.remoteContent == r
              && (action.mergeResult == WholeFileConflict(l, r)
                  || (result.hasConflicts && action.mergeResult == result))))
  {
    var l, r := env.decode(local.contentStore[le.contentHash]), env.decode(remote.contentStore[re.contentHash]);
    MergeHoldsBothSides(env, CommonText(env, le, re, local, remote, Some(view)), l, r);
  }

  /** The remote head is a merge that settles every open head of a conflicted local file. */
  ghost predicate SettledAbove(g: Graph, heads: seq<string>, head: string) {
    |Parents(g, head)| >= 2 && forall h :: h in heads ==> Ancestor(g, h, head)
  }

  /** Why other bytes may replace the local ones without asking. */
  ghost predicate MayReplace(g: Graph, le: FileEntry, re: FileEntry, local: VaultState, remote: VaultState)
    requires Head(le).Some? && Head(re).Some?
    requires le.contentHash in local.contentStore && re.contentHash in remote.contentStore
  {
    var lh, rh := Head(le).value, Head(re).value;
    || (!TwoHeaded(le) && HashOf(g, lh) == Some(le.contentHash) && Ancestor(g, lh, rh))
    || (TwoHeaded(le) && SettledAbove(g, le.conflictParents.value, rh))
    || (&& (IsBinary(local.contentStore[le.contentHash]) || IsBinary(remote.contentStore[re.contentHash]))
        && exists b :: MergeBaseOf(g, lh, rh) == BaseOf(b) && HashOf(g, b) == Some(le.contentHash))
  }

  /**
   * A live file both sides know: its bytes are replaced only by the other side's bytes, and only on
   * a fast-forward from a copy at its head, under a merge above every open head, or when a binary
   * file is unchanged since the merge base.
   */
  lemma ReplacedOnlyWithCause(
    env: Env, view: DagView, g: Graph, fileId: string, le: FileEntry, re: FileEntry, local: VaultState, remote: VaultState)
    requires Known(view, g, le, re, local, remote) && SameBytes(local, remote) && !le.deleted && !re.deleted
    ensures var action := ClassifyBoth(env, fileId, le, re, local, remote, Some(view));
      action.WriteLocal? && action.content != local.contentStore[le.contentHash] ==>
        action.content == remote.contentStore[re.contentHash] && MayReplace(g, le, re, local, remote)
  {
    var lh, rh := Head(le).value, Head(re).value;
    if MergeBaseOf(g, lh, rh).BaseOf? {
      var b := MergeBaseOf(g, lh, rh).id;
      assert MergeBaseOf(g, lh, rh) == BaseOf(b);
    }
  }

  /** Unedited and unrenamed since the version both sides descend from. */
  ghost predicate UnchangedSinceBase(g: Graph, survivor: FileEntry, other: FileEntry)
    requires Head(survivor).Some? && Head(other).Some?
  {
    var synced := OrElse(survivor.lastSyncedPath, other.lastSyncedPath);
    && (synced.Some? ==> survivor.path == synced.value)
    && exists b :: MergeBaseOf(g, Head(survivor).value, Head(other).value) == BaseOf(b)
         && HashOf(g, b) == Some(survivor.contentHash)
  }

  /** A live file is deleted exactly under a settled deletion above its head, or when untouched since the base. */
  lemma DeletedOnlyWithCause(
    env: Env, view: DagView, g: Graph, fileId: string, local: VaultState, remote: VaultState,
    localIndex: map<string, string>, remoteIndex: map<string, string>)
    requires fileId in local.entries && fileId in remote.entries && Answers(view, g)
    requires Head(local.entries[fileId]).Some? && Head(remote.entries[fileId]).Some?
    ensures var le, re := local.entries[fileId], remote.entries[fileId];
      var lh, rh := Head(le).value, Head(re).value;
      ClassifyAndResolve(env, fileId, local, remote, localIndex, remoteIndex, Some(view)).DeleteLocal? <==>
        && !le.deleted && re.deleted
        && ((|Parents(g, rh)| >= 2 && Ancestor(g, lh, rh)) || UnchangedSinceBase(g, le, re))
  {
    var le, re := local.entries[fileId], remote.entries[fileId];
    UnchangedIff(view, g, le, re);
  }

  lemma UnchangedIff(view: DagView, g: Graph, survivor: FileEntry, other: FileEntry)
    requires Answers(view, g) && Head(survivor).Some? && Head(other).Some?
    ensures IsUnchangedSinceBase(survivor, other, Some(view)) <==> UnchangedSinceBase(g, survivor, other)
  {
    var base := MergeBaseOf(g, Head(survivor).value, Head(other).value);
    if base.BaseOf? {
      assert base == BaseOf(base.id);
    }
  }

  /** A file the other side does not know is never deleted here. */
  lemma UnknownElsewhereIsKept(
    env: Env, fileId: string, local: VaultState, remote: VaultState,
    localIndex: map<string, string>, remoteIndex: map<string, string>, dag: Option<DagView>)
    requires fileId in local.entries && fileId !in remote.entries
    ensures !ClassifyAndResolve(env, fileId, local, remote, localIndex, remoteIndex, dag).DeleteLocal?
    ensures !ClassifyAndResolve(env, fileId, local, remote, localIndex, remoteIndex, dag).WriteLocal?
  {
  }

  // ------------------------------------------------------------- create collisions

  lemma WinnerIsShared(le: FileEntry, re: FileEntry)
    requires le.id != re.id
    ensures PickCollisionWinner(le, re) == PickCollisionWinner(re, le)
  {
    CompareIsTotalOrder(le.hlcTimestamp, re.hlcTimestamp, le.hlcTimestamp);
    StringLessTotal(le.id, re.id);
  }

  /** What one device does about a collision: its branch for its own id, and its branch for the other. */
  datatype Settling = Settling(own: MergeAction, other: MergeAction)

  function Settle(
    env: Env, mine: FileEntry, theirs: FileEntry, here: VaultState, there: VaultState, dag: Option<DagView>): Settling
  {
    Settling(ResolveCreateCollision(env, mine, theirs, here, there, false, dag),
      ResolveCreateCollision(env, mine, theirs, here, there, true, dag))
  }

  /** The device that holds the winning id does nothing, the other takes the winner over as it is staged. */
  ghost predicate Yields(winner: FileEntry, loser: FileEntry, staged: VaultState, owner: Settling, yielder: Settling)
    requires winner.contentHash in staged.contentStore
  {
    && owner == Settling(NoOp(winner.id), NoOp(loser.id))
    && yielder.own == NoOp(loser.id)
    && yielder.other == WriteLocal(
         winner.id, winner.path, staged.contentStore[winner.contentHash], winner.hlcTimestamp, winner.headVersionId)
  }

  /** One branch raises the conflict, under the winning id; the branch of the losing id holds. */
  ghost predicate RaisesOnce(winner: FileEntry, loser: FileEntry, mine: FileEntry, s: Settling) {
    var winning, losing := if mine == winner then s.own else s.other, if mine == winner then s.other else s.own;
    winning.TextConflict? && winning.fileId == winner.id && losing == NoOp(loser.id)
  }

  /**
   * Two devices created one path under two ids. Both keep the same id: the losing device takes the
   * winner over, or both raise exactly one conflict and raise it under the winning id.
   */
  lemma CollisionSettles(
    env: Env, view: DagView, g: Graph, le: FileEntry, re: FileEntry, local: VaultState, remote: VaultState)
    requires Answers(view, g) && Acyclic(g) && le.id != re.id
    requires le.contentHash in local.contentStore && re.contentHash in remote.contentStore
    requires Head(le).Some? && Head(re).Some? ==> Head(le) != Head(re)
    ensures var here, there := Settle(env, le, re, local, remote, Some(view)), Settle(env, re, le, remote, local, Some(view));
      || Yields(le, re, local, here, there) || Yields(re, le, remote, there, here)
      || (exists winner, loser :: {winner, loser} == {le, re}
            && RaisesOnce(winner, loser, le, here) && RaisesOnce(winner, loser, re, there))
  {
    WinnerIsShared(le, re);
    if Head(le).Some? && Head(re).Some? {
      var lh, rh := Head(le).value, Head(re).value;
      if Ancestor(g, lh, rh) && Ancestor(g, rh, lh) {
        NoTwoWayAncestry(g, lh, rh);
      }
    }
    var winner := PickCollisionWinner(le, re);
    var loser := if winner == le then re else le;
    assert {winner, loser} == {le, re};
  }

  /** A remote-only id is written over nothing, or by the settling of a collision at its path. */
  lemma NewFileLandsFreeOrSettles(
    env: Env, fileId: string, local: VaultState, remote: VaultState, localIndex: map<string, string>,
    remoteIndex: map<string, string>, dag: Option<DagView>, id: string)
    requires WellFormed(local) && LiveIndex(local, localIndex)
    requires fileId !in local.entries && fileId in remote.entries && !remote.entries[fileId].deleted
    requires id in local.entries && !local.entries[id].deleted && local.entries[id].path == remote.entries[fileId].path
    ensures exists k :: (
      && k in local.entries && !local.entries[k].deleted
      && local.entries[k].path == remote.entries[fileId].path
      && ClassifyAndResolve(env, fileId, local, remote, localIndex, remoteIndex, dag)
         == ResolveCreateCollision(env, local.entries[k], remote.entries[fileId], local, remote, true, dag))
  {
    var p := remote.entries[fileId].path;
    var i: nat :| i < |local.ids| && local.ids[i] == id;
    assert LiveAt(local, i, p);
    var j: nat :| LastAt(local, |local.ids|, j, p) && local.ids[j] == localIndex[p];
    assert localIndex[p] in local.entries;
  }

  /**
   * A collision with diverging bytes overwrites the local file exactly when the remote head descends
   * from the local one. Unlike the fast-forward of a shared id, it does not ask whether the local
   * bytes are still those of the local head.
   */
  lemma CollisionOverwritesIff(
    env: Env, view: DagView, g: Graph, le: FileEntry, re: FileEntry, local: VaultState, remote: VaultState)
    requires Known(view, g, le, re, local, remote) && le.contentHash != re.contentHash
    ensures ResolveCreateCollision(env, le, re, local, remote, true, Some(view)).WriteLocal? <==>
      Ancestor(g, Head(le).value, Head(re).value)
  {
  }

  /** So an edit made after the local head was recorded is replaced by a peer's merge of the two files. */
  lemma CollisionCanReplaceAnUnrecordedEdit(env: Env, view: DagView, clock: HLC)
    requires Answers(view, map["h" := Node({}, "old", "a"), "j" := Node({}, "other", "b"), "k" := Node({"h", "j"}, "new", "b")])
    ensures var le := FileEntry("a", "note", "typed", clock, false, None, Some("h"), None, None);
      var re := FileEntry("b", "note", "new", clock, false, None, Some("k"), None, None);
      var local := VaultState(clock, ["a"], map["a" := le], map["typed" := [1]]);
      var remote := VaultState(clock, ["b"], map["b" := re], map["new" := [2]]);
      ResolveCreateCollision(env, le, re, local, remote, true, Some(view))
        == WriteLocal("b", "note", [2], clock, Some("k"))
  {
    var g := map["h" := Node({}, "old", "a"), "j" := Node({}, "other", "b"), "k" := Node({"h", "j"}, "new", "b")];
    AncestorSelf(g, "h");
    assert "h" in Parents(g, "k");
    AncestorParent(g, "h", "k", "h");
  }
}
