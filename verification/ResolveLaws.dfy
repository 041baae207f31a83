/** What resolving the conflicts of a merge leaves, in terms of the merge itself. */
module ResolveLaws {
  import opened Base
  import opened ThreeWay
  import opened ThreeWayLaws
  import opened Text
  import opened Markers
  import opened MarkerLaws

  /** The merge with every clash settled: the `ci`-th as decided, mine if nothing was decided. */
  function Settled(anc: seq<string>, pieces: seq<Piece>, ci: nat, resolutions: map<nat, Resolution>): seq<string> {
    if pieces == [] then []
    else
      match pieces[0]
      case Clash(l, r) => Decided(l, r, ci, resolutions) + Settled(anc, pieces[1..], ci + 1, resolutions)
      case _ => Emit(anc, pieces[0]) + Settled(anc, pieces[1..], ci, resolutions)
  }

  function Decided(l: Hunk, r: Hunk, ci: nat, resolutions: map<nat, Resolution>): seq<string> {
    if ci !in resolutions then l.lines
    else match resolutions[ci]
      case KeepLocal => l.lines
      case KeepRemote => r.lines
      case KeepBoth => l.lines + r.lines
      case Custom(text) => text
  }

  /** Replacing the chunks of a merge by their decisions settles its clashes. */
  lemma {:induction false} SpliceSettles(
    anc: seq<string>, before: seq<string>, pieces: seq<Piece>, from: nat, ci: nat, resolutions: map<nat, Resolution>)
    requires from <= |before|
    ensures Anchored(before + Merged(anc, pieces), Chunks(anc, pieces, |before|), from)
    ensures Splice(before + Merged(anc, pieces), Chunks(anc, pieces, |before|), from, ci, resolutions)
      == before[from..] + Settled(anc, pieces, ci, resolutions)
    decreases |pieces|
  {
    ChunksAnchored(anc, before, pieces, from);
    if pieces == [] {
      NilConcat(before);
      NilConcat(before[from..]);
    } else {
      var p, rest := pieces[0], pieces[1..];
      var grown := before + Emit(anc, p);
      ChunksUnfold(anc, pieces, p, rest, |before|, |grown|);
      ConcatAssociative(before, Emit(anc, p), Merged(anc, rest));
      if p.Clash? {
        SpliceSettles(anc, grown, rest, |grown|, ci + 1, resolutions);
        ClashSpliced(anc, before, p, rest, from, ci, resolutions, grown, before + Merged(anc, pieces),
          Chunks(anc, rest, |grown|), Chunks(anc, pieces, |before|));
      } else {
        SpliceSettles(anc, grown, rest, from, ci, resolutions);
        NilConcat(Chunks(anc, rest, |grown|));
        GrownSuffix(before, Emit(anc, p), from, Settled(anc, rest, ci, resolutions));
      }
    }
  }

  lemma GrownSuffix(before: seq<string>, emitted: seq<string>, from: nat, rest: seq<string>)
    requires from <= |before|
    ensures (before + emitted)[from..] + rest == before[from..] + (emitted + rest)
  {
  }

  /** A chunk in front: it is spliced, and what follows it is as before. */
  lemma SpliceFirst(
    text: seq<string>, c: ConflictChunk, later: seq<ConflictChunk>, chunks: seq<ConflictChunk>, from: nat, start: nat, next: nat,
    ci: nat, resolutions: map<nat, Resolution>)
    requires chunks == [c] + later && c.startLine == start && from <= start && next == start + |c.local| <= |text|
    requires c.endLine == next - 1 && text[start..next] == c.local && Anchored(text, later, next)
    ensures Anchored(text, chunks, from)
    ensures Splice(text, chunks, from, ci, resolutions) == text[from..start]
      + ResolveLines(c.local, c.remote, Decision(resolutions, ci)) + Splice(text, later, next, ci + 1, resolutions)
  {
    ConsParts(c, later);
  }

  lemma PickedIs(l: Hunk, r: Hunk, ci: nat, resolutions: map<nat, Resolution>)
    ensures ResolveLines(l.lines, r.lines, Decision(resolutions, ci)) == Decided(l, r, ci, resolutions)
  {
  }

  lemma ClashSpliced(
    anc: seq<string>, before: seq<string>, p: Piece, rest: seq<Piece>, from: nat, ci: nat, resolutions: map<nat, Resolution>,
    grown: seq<string>, text: seq<string>, later: seq<ConflictChunk>, chunks: seq<ConflictChunk>)
    requires from <= |before| && p.Clash? && grown == before + Emit(anc, p) && text == before + (Emit(anc, p) + Merged(anc, rest))
    requires later == Chunks(anc, rest, |grown|) && chunks == [ChunkOf(anc, p.l, p.r, |before|)] + later
    requires Anchored(text, later, |grown|)
    requires Splice(text, later, |grown|, ci + 1, resolutions) == grown[|grown|..] + Settled(anc, rest, ci + 1, resolutions)
    ensures Anchored(text, chunks, from)
    ensures Splice(text, chunks, from, ci, resolutions)
      == before[from..] + (Decided(p.l, p.r, ci, resolutions) + Settled(anc, rest, ci + 1, resolutions))
  {
    var c, tail := ChunkOf(anc, p.l, p.r, |before|), Settled(anc, rest, ci + 1, resolutions);
    MiddleSlice(before, c.local, Merged(anc, rest));
    PrefixSlice(before, Emit(anc, p) + Merged(anc, rest), from);
    SpliceFirst(text, c, later, chunks, from, |before|, |grown|, ci, resolutions);
    SliceEnds(grown, |grown|);
    NilConcat(tail);
    PickedIs(p.l, p.r, ci, resolutions);
    ConcatAssociative(before[from..], Decided(p.l, p.r, ci, resolutions), tail);
  }

  lemma PrefixSlice(before: seq<string>, after: seq<string>, from: nat)
    requires from <= |before|
    ensures (before + after)[from..|before|] == before[from..]
  {
  }

  /**
   * The marked file of a merge, resolved and saved: every clash is replaced by the side, the sides or the
   * text decided for it, mine where nothing was decided, and all else is as merged.
   */
  lemma ResolvedMergeIs(anc: seq<string>, local: seq<Hunk>, remote: seq<Hunk>, resolutions: map<nat, Resolution>)
    requires var result := MergeHunks(anc, local, remote);
      Anchored(result.merged, result.conflicts, 0) && Plain(result.merged, result.conflicts, 0)
    ensures Join(ResolveFrom(ParseMarkers(Render(MergeHunks(anc, local, remote))), 0, resolutions), LF)
      == Join(Settled(anc, Weave(local, remote, 0, |anc|), 0, resolutions), LF)
  {
    var pieces := Weave(local, remote, 0, |anc|);
    ResolveRendered(MergeHunks(anc, local, remote), resolutions);
    SpliceSettles(anc, [], pieces, 0, 0, resolutions);
    NilConcat(Merged(anc, pieces));
    NilConcat(Settled(anc, pieces, 0, resolutions));
  }

  lemma {:induction false} SettledAsRemote(anc: seq<string>, pieces: seq<Piece>, start: nat, ci: nat, resolutions: map<nat, Resolution>)
    requires forall k :: ci <= k < ci + |Chunks(anc, pieces, start)| ==> k in resolutions && resolutions[k] == KeepRemote
    requires forall k :: 0 <= k < |pieces| ==> pieces[k].Clash? || SameEither(anc, pieces[k])
    ensures Settled(anc, pieces, ci, resolutions) == Merged(anc, SwapAll(pieces))
    decreases |pieces|
  {
    if pieces != [] {
      var p, rest, next := pieces[0], pieces[1..], start + |Emit(anc, pieces[0])|;
      ChunksUnfold(anc, pieces, p, rest, start, next);
      SwappedUnfolds(anc, pieces, p, rest);
      forall k | 0 <= k < |rest| ensures rest[k].Clash? || SameEither(anc, rest[k]) {
        assert rest[k] == pieces[k + 1];
      }
      SettledAsRemote(anc, rest, next, if p.Clash? then ci + 1 else ci, resolutions);
    }
  }

  lemma SwappedUnfolds(anc: seq<string>, pieces: seq<Piece>, p: Piece, rest: seq<Piece>)
    requires pieces != [] && pieces[0] == p && pieces[1..] == rest
    ensures Merged(anc, SwapAll(pieces)) == Emit(anc, Swap(p)) + Merged(anc, SwapAll(rest))
  {
    assert SwapAll(pieces)[1..] == SwapAll(rest) && SwapAll(pieces)[0] == Swap(p);
  }

  /**
   * Keeping the other side everywhere gives exactly the text the other device merged, where no two
   * insertions at one gap show their order.
   */
  lemma ResolveAsRemoteIsTheirs(anc: seq<string>, local: seq<Hunk>, remote: seq<Hunk>, resolutions: map<nat, Resolution>)
    requires Pending(local, |anc|) && Separated(local) && Pending(remote, |anc|) && Separated(remote)
    requires !DivergentInsertions(local, remote)
    requires var result := MergeHunks(anc, local, remote);
      && Anchored(result.merged, result.conflicts, 0) && Plain(result.merged, result.conflicts, 0)
      && forall k :: 0 <= k < |result.conflicts| ==> k in resolutions && resolutions[k] == KeepRemote
    ensures Join(ResolveFrom(ParseMarkers(Render(MergeHunks(anc, local, remote))), 0, resolutions), LF)
      == Join(MergeHunks(anc, remote, local).merged, LF)
  {
    ResolvedMergeIs(anc, local, remote, resolutions);
    CalmPieces(anc, local, remote);
    SettledAsRemote(anc, Weave(local, remote, 0, |anc|), 0, 0, resolutions);
    WeaveSwaps(local, remote, 0, |anc|);
  }
}
