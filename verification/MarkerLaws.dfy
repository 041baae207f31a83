/** Printing, parsing and resolving conflict markers fit together. */
module MarkerLaws {
  import opened Base
  import opened ThreeWay
  import opened Text
  import opened Markers

  /**
   * Every chunk's local lines sit in the merged text at its start line, chunks in order and not
   * overlapping; a chunk without local lines is zero-width and may share its start with the next.
   */
  ghost predicate Anchored(merged: seq<string>, chunks: seq<ConflictChunk>, from: nat) {
    if chunks == [] then from <= |merged|
    else
      var c := chunks[0];
      && from <= c.startLine && c.endLine == c.startLine + |c.local| - 1
      && c.startLine + |c.local| <= |merged| && merged[c.startLine..c.startLine + |c.local|] == c.local
      && Anchored(merged, chunks[1..], c.startLine + |c.local|)
  }

  /** The clean runs and the chunks of a result, in order. */
  ghost function Segments(merged: seq<string>, chunks: seq<ConflictChunk>, from: nat): seq<Segment>
    requires Anchored(merged, chunks, from)
  {
    if chunks == [] then FlushClean(merged[from..])
    else
      var c := chunks[0];
      FlushClean(merged[from..c.startLine]) + [Conflict(c.local, c.ancestor, c.remote)]
        + Segments(merged, chunks[1..], c.startLine + |c.local|)
  }

  /** The merged text with every chunk's local lines replaced by what its decision selects. */
  ghost function Splice(
    merged: seq<string>, chunks: seq<ConflictChunk>, from: nat, ci: nat, resolutions: map<nat, Resolution>)
    : seq<string>
    requires Anchored(merged, chunks, from)
  {
    if chunks == [] then merged[from..]
    else
      var c := chunks[0];
      merged[from..c.startLine] + ResolveLines(c.local, c.remote, Decision(resolutions, ci))
        + Splice(merged, chunks[1..], c.startLine + |c.local|, ci + 1, resolutions)
  }

  predicate NoOpening(lines: seq<string>) {
    forall line :: line in lines ==> !StartsWith(line, MARK_OURS)
  }

  predicate NoSection(lines: seq<string>) {
    forall line :: line in lines ==> !IsSection(line)
  }

  predicate PlainChunk(c: ConflictChunk) {
    && NoSection(c.local) && NoSection(c.ancestor) && NoSection(c.remote)
    && CleanLines(c.local) && CleanLines(c.ancestor) && CleanLines(c.remote)
  }

  /** Clean lines never open a block and chunk lines never move the parser. */
  ghost predicate Plain(merged: seq<string>, chunks: seq<ConflictChunk>, from: nat)
    requires Anchored(merged, chunks, from)
  {
    if chunks == [] then NoOpening(merged[from..]) && CleanLines(merged[from..])
    else
      var c := chunks[0];
      && NoOpening(merged[from..c.startLine]) && CleanLines(merged[from..c.startLine]) && PlainChunk(c)
      && Plain(merged, chunks[1..], c.startLine + |c.local|)
  }

  // ------------------------------------------------------------ the printed form

  lemma {:induction false} AnchoredSorted(merged: seq<string>, chunks: seq<ConflictChunk>, from: nat)
    requires Anchored(merged, chunks, from)
    ensures SortByStart(chunks) == chunks
    ensures chunks != [] ==> chunks[0].startLine >= from
  {
    if chunks != [] {
      var c := chunks[0];
      AnchoredSorted(merged, chunks[1..], c.startLine + |c.local|);
    }
  }

  /** Up to the next chunk, or the end, the printed lines are the merged ones. */
  lemma {:induction false} RenderTo(merged: seq<string>, chunks: seq<ConflictChunk>, from: nat, end: nat)
    requires from <= end <= |merged| && (chunks != [] ==> end <= chunks[0].startLine)
    ensures RenderLines(merged, chunks, from) == merged[from..end] + RenderLines(merged, chunks, end)
    decreases end - from
  {
    var tail := RenderLines(merged, chunks, end);
    if from < end {
      RenderTo(merged, chunks, from + 1, end);
      SliceCons(merged, from, end);
      ConcatAssociative([merged[from]], merged[from + 1..end], tail);
    } else {
      SliceEnds(merged, from);
      NilConcat(tail);
    }
  }

  lemma RenderRun(merged: seq<string>, chunks: seq<ConflictChunk>, from: nat)
    requires Anchored(merged, chunks, from)
    ensures RenderLines(merged, chunks, from) ==
      if chunks == [] then merged[from..]
      else merged[from..chunks[0].startLine] + RenderLines(merged, chunks, chunks[0].startLine)
  {
    if chunks == [] {
      RenderTo(merged, chunks, from, |merged|);
      SliceEnds(merged, from);
      NilConcat(merged[from..]);
    } else {
      RenderTo(merged, chunks, from, chunks[0].startLine);
    }
  }

  lemma RenderChunk(merged: seq<string>, chunks: seq<ConflictChunk>, from: nat)
    requires chunks != [] && from <= chunks[0].startLine <= |merged|
    requires chunks[0].endLine == chunks[0].startLine + |chunks[0].local| - 1
    ensures var c := chunks[0];
      RenderLines(merged, chunks, from) == merged[from..c.startLine]
        + (RenderBlock(c) + RenderLines(merged, chunks[1..], c.startLine + |c.local|))
  {
    var c := chunks[0];
    RenderTo(merged, chunks, from, c.startLine);
    RenderHere(merged, chunks);
    SecondIs(RenderLines(merged, chunks, from), merged[from..c.startLine], RenderLines(merged, chunks, c.startLine),
      RenderBlock(c), RenderLines(merged, chunks[1..], c.startLine + |c.local|));
  }

  lemma RenderHere(merged: seq<string>, chunks: seq<ConflictChunk>)
    requires chunks != [] && chunks[0].startLine >= 0 && chunks[0].endLine == chunks[0].startLine + |chunks[0].local| - 1
    ensures var c := chunks[0];
      RenderLines(merged, chunks, c.startLine) == RenderBlock(c) + RenderLines(merged, chunks[1..], c.startLine + |c.local|)
  {
  }

  // ------------------------------------------------------------------- parsing

  lemma {:induction false} ParseCleanRun(xs: seq<string>, rest: seq<string>, p: Parser)
    requires p.state == Outside && NoOpening(xs)
    ensures ParseFrom(xs + rest, p) == ParseFrom(rest, p.(clean := p.clean + xs))
  {
    if xs == [] {
      assert xs + rest == rest && p.clean + [] == p.clean;
    } else {
      assert (xs + rest)[1..] == xs[1..] + rest;
      ParseCleanRun(xs[1..], rest, p.(clean := p.clean + [xs[0]]));
      assert p.clean + [xs[0]] + xs[1..] == p.clean + xs;
    }
  }

  function Collect(p: Parser, xs: seq<string>): Parser {
    if p.state == Ours then p.(ours := p.ours + xs)
    else if p.state == BaseLines then p.(base := p.base + xs)
    else p.(theirs := p.theirs + xs)
  }

  lemma {:induction false} ParseSectionRun(xs: seq<string>, rest: seq<string>, p: Parser)
    requires p.state != Outside && NoSection(xs)
    ensures ParseFrom(xs + rest, p) == ParseFrom(rest, Collect(p, xs))
  {
    if xs == [] {
      assert xs + rest == rest;
      assert p.ours + [] == p.ours && p.base + [] == p.base && p.theirs + [] == p.theirs;
    } else {
      assert !IsSection(xs[0]);
      assert (xs + rest)[1..] == xs[1..] + rest;
      ParseSectionRun(xs[1..], rest, Collect(p, [xs[0]]));
      assert p.ours + [xs[0]] + xs[1..] == p.ours + xs;
      assert p.base + [xs[0]] + xs[1..] == p.base + xs;
      assert p.theirs + [xs[0]] + xs[1..] == p.theirs + xs;
    }
  }

  lemma ParseMarkerLine(line: string, rest: seq<string>, p: Parser)
    ensures ParseFrom([line] + rest, p) == Feed(p, line).0 + ParseFrom(rest, Feed(p, line).1)
  {
    assert ([line] + rest)[1..] == rest;
  }

  lemma MarkerLines()
    ensures StartsWith(MARK_OURS + " Mine", MARK_OURS)
    ensures StartsWith(MARK_BASE + " Original", MARK_BASE)
    ensures !StartsWith(MARK_SEP, MARK_BASE)
    ensures !StartsWith(MARK_THEIRS + " Theirs", MARK_BASE) && !StartsWith(MARK_THEIRS + " Theirs", MARK_SEP)
    ensures StartsWith(MARK_THEIRS + " Theirs", MARK_THEIRS)
  {
    assert MARK_SEP[0] != MARK_BASE[0];
    assert (MARK_THEIRS + " Theirs")[0] == '>' && MARK_BASE[0] == '|' && MARK_SEP[0] == '=';
  }

  /** A marker line of a block, and the section after it. */
  lemma ParseSection(line: string, xs: seq<string>, rest: seq<string>, p: Parser)
    requires Feed(p, line).1.state != Outside && NoSection(xs)
    ensures ParseFrom([line] + (xs + rest), p) == Feed(p, line).0 + ParseFrom(rest, Collect(Feed(p, line).1, xs))
  {
    ParseMarkerLine(line, xs + rest, p);
    ParseSectionRun(xs, rest, Feed(p, line).1);
  }

  lemma BlockParts(c: ConflictChunk, rest: seq<string>)
    ensures RenderBlock(c) + rest == [MARK_OURS + " Mine"] + (c.local + ([MARK_BASE + " Original"] + (c.ancestor
      + ([MARK_SEP] + (c.remote + ([MARK_THEIRS + " Theirs"] + rest))))))
  {
  }

  /** A printed block parses back to its three sides, after the clean run it ends. */
  lemma ParseBlock(c: ConflictChunk, rest: seq<string>, clean: seq<string>)
    requires PlainChunk(c)
    ensures ParseFrom(RenderBlock(c) + rest, Start().(clean := clean))
         == FlushClean(clean) + [Conflict(c.local, c.ancestor, c.remote)] + ParseFrom(rest, Start())
  {
    MarkerLines();
    BlockParts(c, rest);
    NilConcat(c.local);
    NilConcat(c.ancestor);
    NilConcat(c.remote);
    var t3 := [MARK_THEIRS + " Theirs"] + rest;
    var t2 := [MARK_SEP] + (c.remote + t3);
    var t1 := [MARK_BASE + " Original"] + (c.ancestor + t2);
    var p0 := Start().(clean := clean);
    var p1 := Parser(Ours, [], c.local, [], []);
    var p2 := Parser(BaseLines, [], c.local, c.ancestor, []);
    var p3 := Parser(Theirs, [], c.local, c.ancestor, c.remote);
    ParseSection(MARK_OURS + " Mine", c.local, t1, p0);
    ParseSection(MARK_BASE + " Original", c.ancestor, t2, p1);
    NilConcat(ParseFrom(t2, p2));
    ParseSection(MARK_SEP, c.remote, t3, p2);
    NilConcat(ParseFrom(t3, p3));
    ParseMarkerLine(MARK_THEIRS + " Theirs", rest, p3);
    ConcatAssociative(FlushClean(clean), [Conflict(c.local, c.ancestor, c.remote)], ParseFrom(rest, Start()));
  }

  /** A printed block cut off in one of its sections. */
  function CutIn(c: ConflictChunk, section: Section): seq<string> {
    match section
    case Outside => []
    case Ours => [MARK_OURS + " Mine"] + c.local
    case BaseLines => [MARK_OURS + " Mine"] + (c.local + ([MARK_BASE + " Original"] + c.ancestor))
    case Theirs => [MARK_OURS + " Mine"] + (c.local + ([MARK_BASE + " Original"] + (c.ancestor + ([MARK_SEP] + c.remote))))
  }

  /** A block that is cut off keeps, in its sections, the lines it had. */
  lemma ParseCutBlock(c: ConflictChunk, section: Section, clean: seq<string>)
    requires PlainChunk(c) && section != Outside
    ensures ParseFrom(CutIn(c, section), Start().(clean := clean)) == FlushClean(clean) +
      [Conflict(c.local, if section == Ours then [] else c.ancestor, if section == Theirs then c.remote else [])]
  {
    MarkerLines();
    NilConcat(c.local);
    NilConcat(c.ancestor);
    NilConcat(c.remote);
    var t2 := if section == Theirs then [MARK_SEP] + c.remote else [];
    var t1 := if section == Ours then [] else [MARK_BASE + " Original"] + (c.ancestor + t2);
    var p0 := Start().(clean := clean);
    var p1 := Parser(Ours, [], c.local, [], []);
    var p2 := Parser(BaseLines, [], c.local, c.ancestor, []);
    ParseSection(MARK_OURS + " Mine", c.local, t1, p0);
    if section != Ours {
      ParseSection(MARK_BASE + " Original", c.ancestor, t2, p1);
      NilConcat(ParseFrom(t2, p2));
    }
    if section == Theirs {
      ParseSection(MARK_SEP, c.remote, [], p2);
      NilConcat(Finish(Parser(Theirs, [], c.local, c.ancestor, c.remote)));
    }
  }

  /** A clean run and the printed block after it. */
  lemma ParseRunAndBlock(clean: seq<string>, c: ConflictChunk, rest: seq<string>)
    requires NoOpening(clean) && PlainChunk(c)
    ensures ParseFrom(clean + (RenderBlock(c) + rest), Start())
         == FlushClean(clean) + [Conflict(c.local, c.ancestor, c.remote)] + ParseFrom(rest, Start())
  {
    ParseCleanRun(clean, RenderBlock(c) + rest, Start());
    assert [] + clean == clean;
    ParseBlock(c, rest, clean);
  }

  lemma {:induction false} ParseRendered(merged: seq<string>, chunks: seq<ConflictChunk>, from: nat)
    requires Anchored(merged, chunks, from) && Plain(merged, chunks, from)
    ensures ParseFrom(RenderLines(merged, chunks, from), Start()) == Segments(merged, chunks, from)
    decreases |chunks|
  {
    if chunks == [] {
      RenderRun(merged, chunks, from);
      ParseCleanRun(merged[from..], [], Start());
      assert merged[from..] + [] == merged[from..] && [] + merged[from..] == merged[from..];
    } else {
      var c := chunks[0];
      var next := c.startLine + |c.local|;
      var rest := RenderLines(merged, chunks[1..], next);
      ParseRendered(merged, chunks[1..], next);
      RenderChunk(merged, chunks, from);
      ParseRunAndBlock(merged[from..c.startLine], c, rest);
    }
  }

  lemma BlockLinesClean(c: ConflictChunk)
    requires PlainChunk(c)
    ensures CleanLines(RenderBlock(c))
  {
    assert CleanLine(MARK_OURS + " Mine") && CleanLine(MARK_BASE + " Original");
    assert CleanLine(MARK_SEP) && CleanLine(MARK_THEIRS + " Theirs");
  }

  lemma {:induction false} RenderedLinesClean(merged: seq<string>, chunks: seq<ConflictChunk>, from: nat)
    requires Anchored(merged, chunks, from) && Plain(merged, chunks, from)
    ensures CleanLines(RenderLines(merged, chunks, from))
    decreases |chunks|
  {
    if chunks == [] {
      RenderRun(merged, chunks, from);
    } else {
      var c := chunks[0];
      RenderChunk(merged, chunks, from);
      BlockLinesClean(c);
      RenderedLinesClean(merged, chunks[1..], c.startLine + |c.local|);
    }
  }

  /** `renderMarkersFromResult` as a function, for the laws. */
  ghost function Render(result: MergeResult): string {
    Join(RenderLines(result.merged, SortByStart(result.conflicts), 0), LF)
  }

  /**
   * Parsing a printed result gives back its clean runs and its chunks, in order. The one text the
   * line lists cannot tell apart is the empty one: no line at all prints like one empty line.
   */
  lemma ParseInvertsRender(result: MergeResult)
    requires Anchored(result.merged, result.conflicts, 0) && Plain(result.merged, result.conflicts, 0)
    ensures ParseMarkers(Render(result)) ==
      if result.merged == [] && result.conflicts == [] then [Clean([""])]
      else Segments(result.merged, result.conflicts, 0)
  {
    var merged, chunks := result.merged, result.conflicts;
    AnchoredSorted(merged, chunks, 0);
    var lines := RenderLines(merged, chunks, 0);
    if merged == [] && chunks == [] {
      assert NormalizeLines("") == [""];
      ParseCleanRun([""], [], Start());
      assert [""] + [] == [""] && [] + [""] == [""];
    } else {
      RenderedNonEmpty(merged, chunks);
      RenderedLinesClean(merged, chunks, 0);
      NormalizeJoin(lines);
      ParseRendered(merged, chunks, 0);
    }
  }

  lemma RenderedNonEmpty(merged: seq<string>, chunks: seq<ConflictChunk>)
    requires Anchored(merged, chunks, 0) && (merged != [] || chunks != [])
    ensures RenderLines(merged, chunks, 0) != []
  {
    if chunks != [] {
      RenderChunk(merged, chunks, 0);
      assert |RenderBlock(chunks[0])| >= 1;
    } else {
      RenderRun(merged, chunks, 0);
    }
  }

  // ----------------------------------------------------------------- resolving

  lemma ResolveFlush(clean: seq<string>, rest: seq<Segment>, ci: nat, resolutions: map<nat, Resolution>)
    ensures ResolveFrom(FlushClean(clean) + rest, ci, resolutions) == clean + ResolveFrom(rest, ci, resolutions)
  {
    if |clean| > 0 {
      assert ([Clean(clean)] + rest)[1..] == rest;
    } else {
      assert FlushClean(clean) + rest == rest;
    }
  }

  lemma ResolveRunAndBlock(
    clean: seq<string>, c: ConflictChunk, rest: seq<Segment>, ci: nat, resolutions: map<nat, Resolution>)
    ensures ResolveFrom(FlushClean(clean) + [Conflict(c.local, c.ancestor, c.remote)] + rest, ci, resolutions)
         == clean + ResolveLines(c.local, c.remote, Decision(resolutions, ci))
              + ResolveFrom(rest, ci + 1, resolutions)
  {
    var block := Conflict(c.local, c.ancestor, c.remote);
    ConcatAssociative(FlushClean(clean), [block], rest);
    ResolveFlush(clean, [block] + rest, ci, resolutions);
    assert ([block] + rest)[1..] == rest;
    ConcatAssociative(clean, ResolveLines(c.local, c.remote, Decision(resolutions, ci)),
      ResolveFrom(rest, ci + 1, resolutions));
  }

  lemma {:induction false} ResolveSegments(
    merged: seq<string>, chunks: seq<ConflictChunk>, from: nat, ci: nat, resolutions: map<nat, Resolution>)
    requires Anchored(merged, chunks, from)
    ensures ResolveFrom(Segments(merged, chunks, from), ci, resolutions)
         == Splice(merged, chunks, from, ci, resolutions)
    decreases |chunks|
  {
    if chunks == [] {
      ResolveFlush(merged[from..], [], ci, resolutions);
      assert FlushClean(merged[from..]) + [] == FlushClean(merged[from..]);
    } else {
      var c := chunks[0];
      var next := c.startLine + |c.local|;
      ResolveSegments(merged, chunks[1..], next, ci + 1, resolutions);
      ResolveRunAndBlock(merged[from..c.startLine], c, Segments(merged, chunks[1..], next), ci, resolutions);
      LastIs(ResolveFrom(Segments(merged, chunks, from), ci, resolutions), merged[from..c.startLine],
        ResolveLines(c.local, c.remote, Decision(resolutions, ci)),
        ResolveFrom(Segments(merged, chunks[1..], next), ci + 1, resolutions),
        Splice(merged, chunks[1..], next, ci + 1, resolutions));
    }
  }

  lemma {:induction false} SpliceLocal(
    merged: seq<string>, chunks: seq<ConflictChunk>, from: nat, ci: nat, resolutions: map<nat, Resolution>)
    requires Anchored(merged, chunks, from)
    requires forall k :: k in resolutions ==> resolutions[k] == KeepLocal
    ensures Splice(merged, chunks, from, ci, resolutions) == merged[from..]
    decreases |chunks|
  {
    if chunks != [] {
      var c := chunks[0];
      SpliceLocal(merged, chunks[1..], c.startLine + |c.local|, ci + 1, resolutions);
      SuffixSplit(merged, from, c.startLine);
      SuffixSplit(merged, c.startLine, c.startLine + |c.local|);
      ConcatAssociative(merged[from..c.startLine], c.local, merged[c.startLine + |c.local|..]);
      LastIs(Splice(merged, chunks, from, ci, resolutions), merged[from..c.startLine], c.local,
        Splice(merged, chunks[1..], c.startLine + |c.local|, ci + 1, resolutions), merged[c.startLine + |c.local|..]);
    }
  }

  /**
   * Resolving a printed result replaces each chunk by exactly the lines its decision selects and
   * leaves every other line alone, whatever the decisions are.
   */
  lemma ResolveRendered(result: MergeResult, resolutions: map<nat, Resolution>)
    requires Anchored(result.merged, result.conflicts, 0) && Plain(result.merged, result.conflicts, 0)
    ensures Join(ResolveFrom(ParseMarkers(Render(result)), 0, resolutions), LF)
         == Join(Splice(result.merged, result.conflicts, 0, 0, resolutions), LF)
  {
    ParseInvertsRender(result);
    if result.merged == [] && result.conflicts == [] {
      ResolveFlush([""], [], 0, resolutions);
      assert FlushClean([""]) + [] == [Clean([""])] && [""] + [] == [""];
    } else {
      ResolveSegments(result.merged, result.conflicts, 0, 0, resolutions);
    }
  }

  /** Keeping the local side everywhere gives exactly the merged text. */
  lemma ResolveAsLocalIsMerged(result: MergeResult, resolutions: map<nat, Resolution>)
    requires Anchored(result.merged, result.conflicts, 0) && Plain(result.merged, result.conflicts, 0)
    requires forall k :: k in resolutions ==> resolutions[k] == KeepLocal
    ensures Join(ResolveFrom(ParseMarkers(Render(result)), 0, resolutions), LF) == Join(result.merged, LF)
  {
    ResolveRendered(result, resolutions);
    SpliceLocal(result.merged, result.conflicts, 0, 0, resolutions);
    assert result.merged[0..] == result.merged;
  }

  /** A printed result reads as conflict-marked exactly when it has a conflict. */
  lemma MarkedIffConflicted(result: MergeResult)
    requires Anchored(result.merged, result.conflicts, 0) && Plain(result.merged, result.conflicts, 0)
    ensures HasConflictMarkers(Render(result)) <==> result.conflicts != []
  {
    var merged, chunks := result.merged, result.conflicts;
    AnchoredSorted(merged, chunks, 0);
    RenderedLinesClean(merged, chunks, 0);
    var lines := RenderLines(merged, chunks, 0);
    if chunks == [] {
      RenderRun(merged, chunks, 0);
      assert merged[0..] == merged;
      if merged == [] {
        assert NormalizeLines("") == [""];
      } else {
        NormalizeJoin(lines);
      }
    } else {
      RenderedNonEmpty(merged, chunks);
      NormalizeJoin(lines);
      MarkersShow(merged, chunks);
    }
  }

  lemma MarkersShow(merged: seq<string>, chunks: seq<ConflictChunk>)
    requires Anchored(merged, chunks, 0) && chunks != []
    ensures HasLine(RenderLines(merged, chunks, 0), MARK_OURS) && HasLine(RenderLines(merged, chunks, 0), MARK_THEIRS)
  {
    RenderChunk(merged, chunks, 0);
    MarkerLines();
    var c := chunks[0];
    var lines := RenderLines(merged, chunks, 0);
    var n := |merged[..c.startLine]|;
    assert lines[n] == MARK_OURS + " Mine";
    assert lines[n + |RenderBlock(c)| - 1] == MARK_THEIRS + " Theirs";
  }

  // -------------------------------------------------------- results of the merge

  lemma {:induction false} ChunksAnchored(anc: seq<string>, before: seq<string>, pieces: seq<Piece>, from: nat)
    requires from <= |before|
    ensures Anchored(before + Merged(anc, pieces), Chunks(anc, pieces, |before|), from)
    decreases |pieces|
  {
    var text := before + Merged(anc, pieces);
    if pieces != [] {
      var p, rest := pieces[0], pieces[1..];
      assert pieces == [p] + rest;
      ChunksCons(anc, p, rest, |before|);
      var grown := before + Emit(anc, p);
      ConcatAssociative(before, Emit(anc, p), Merged(anc, rest));
      assert text == grown + Merged(anc, rest);
      if p.Clash? {
        ChunksAnchored(anc, grown, rest, |grown|);
        var c := ChunkOf(anc, p.l, p.r, |before|);
        MiddleSlice(before, c.local, Merged(anc, rest));
        ConsParts(c, Chunks(anc, rest, |grown|));
      } else {
        ChunksAnchored(anc, grown, rest, from);
        NilConcat(Chunks(anc, rest, |grown|));
      }
    }
  }

  /** Every merge result is anchored, so the marker laws apply to it. */
  lemma MergeIsAnchored(anc: seq<string>, local: seq<Hunk>, remote: seq<Hunk>)
    ensures var result := MergeHunks(anc, local, remote); Anchored(result.merged, result.conflicts, 0)
  {
    var pieces := Weave(local, remote, 0, |anc|);
    ChunksAnchored(anc, [], pieces, 0);
    assert [] + Merged(anc, pieces) == Merged(anc, pieces);
  }

  // ------------------------------------------------- texts that were never printed

  /** What is a marker depends on where it stands: outside a block only its opening is one. */
  predicate IsMarker(line: string, inBlock: bool) {
    if inBlock then IsSection(line) else StartsWith(line, MARK_OURS)
  }

  /** A block is left by its closing line only. */
  predicate InBlockAfter(line: string, inBlock: bool) {
    if inBlock then !StartsWith(line, MARK_THEIRS) else StartsWith(line, MARK_OURS)
  }

  /** The lines of a text that are no markers where they stand. */
  function ContentLines(lines: seq<string>, inBlock: bool): seq<string> {
    if lines == [] then []
    else (if IsMarker(lines[0], inBlock) then [] else [lines[0]]) + ContentLines(lines[1..], InBlockAfter(lines[0], inBlock))
  }

  /** The lines a parse holds, section by section. */
  function LinesOf(segments: seq<Segment>): seq<string> {
    if segments == [] then []
    else
      (match segments[0] case Clean(lines) => lines case Conflict(ours, base, theirs) => ours + base + theirs)
        + LinesOf(segments[1..])
  }

  lemma {:induction false} LinesOfAppend(xs: seq<Segment>, ys: seq<Segment>)
    ensures LinesOf(xs + ys) == LinesOf(xs) + LinesOf(ys)
  {
    if xs == [] {
      NilConcat(ys);
      NilConcat(LinesOf(ys));
    } else {
      ConsAppend(xs, ys);
      LinesOfAppend(xs[1..], ys);
      var head := match xs[0] case Clean(lines) => lines case Conflict(ours, base, theirs) => ours + base + theirs;
      ConcatAssociative(head, LinesOf(xs[1..]), LinesOf(ys));
    }
  }

  /** Outside a block only a clean run is held, inside one only its sections. */
  predicate Holding(p: Parser) {
    if p.state == Outside then p.ours == [] && p.base == [] && p.theirs == [] else p.clean == []
  }

  function HeldLines(p: Parser): multiset<string> {
    multiset(p.clean) + multiset(p.ours) + multiset(p.base) + multiset(p.theirs)
  }

  lemma OnlySegment(segment: Segment)
    ensures LinesOf([segment]) == match segment case Clean(lines) => lines case Conflict(ours, base, theirs) => ours + base + theirs
  {
    assert [segment][1..] == [];
  }

  lemma SectionsDiffer(line: string)
    ensures StartsWith(line, MARK_THEIRS) ==> !StartsWith(line, MARK_BASE) && !StartsWith(line, MARK_SEP)
  {
    if StartsWith(line, MARK_THEIRS) {
      assert line[0] == '>' && MARK_BASE[0] == '|' && MARK_SEP[0] == '=';
    }
  }

  /** What one line does to the lines held: they are set free, or kept, and a line that is no marker joins them. */
  ghost predicate Tallies(p: Parser, line: string, here: seq<string>) {
    var (done, next) := Feed(p, line);
    && Holding(next) && (next.state != Outside <==> InBlockAfter(line, p.state != Outside))
    && multiset(LinesOf(done)) + HeldLines(next) == HeldLines(p) + multiset(here)
  }

  lemma FeedOutside(p: Parser, line: string)
    requires Holding(p) && p.state == Outside
    ensures Tallies(p, line, if StartsWith(line, MARK_OURS) then [] else [line])
  {
    if StartsWith(line, MARK_OURS) {
      OnlySegment(Clean(p.clean));
    } else {
      Joins(p.clean, [line]);
    }
  }

  lemma FeedMarker(p: Parser, line: string)
    requires Holding(p) && p.state != Outside && IsSection(line)
    ensures Tallies(p, line, [])
  {
    SectionsDiffer(line);
    if StartsWith(line, MARK_THEIRS) {
      OnlySegment(Conflict(p.ours, p.base, p.theirs));
      Joins(p.ours + p.base, p.theirs);
      Joins(p.ours, p.base);
    }
  }

  lemma FeedContent(p: Parser, line: string)
    requires Holding(p) && p.state != Outside && !IsSection(line)
    ensures Tallies(p, line, [line])
  {
    var next := Feed(p, line).1;
    match p.state
    case Ours =>
      Joins(p.ours, [line]);
      assert HeldLines(next) == HeldLines(p) + multiset([line]);
    case BaseLines =>
      Joins(p.base, [line]);
      assert HeldLines(next) == HeldLines(p) + multiset([line]);
    case Theirs =>
      Joins(p.theirs, [line]);
      assert HeldLines(next) == HeldLines(p) + multiset([line]);
  }

  lemma FeedHolds(p: Parser, line: string)
    requires Holding(p)
    ensures Tallies(p, line, if IsMarker(line, p.state != Outside) then [] else [line])
  {
    if p.state == Outside {
      FeedOutside(p, line);
    } else if IsSection(line) {
      FeedMarker(p, line);
    } else {
      FeedContent(p, line);
    }
  }

  lemma Joins(xs: seq<string>, ys: seq<string>)
    ensures multiset(xs + ys) == multiset(xs) + multiset(ys)
  {
  }

  lemma {:induction false} ParseHolds(lines: seq<string>, p: Parser)
    requires Holding(p)
    ensures multiset(LinesOf(ParseFrom(lines, p))) == HeldLines(p) + multiset(ContentLines(lines, p.state != Outside))
  {
    if lines == [] {
      if Finish(p) != [] {
        OnlySegment(Finish(p)[0]);
      }
    } else {
      var (done, next) := Feed(p, lines[0]);
      var rest := ParseFrom(lines[1..], next);
      var here := if IsMarker(lines[0], p.state != Outside) then [] else [lines[0]];
      FeedHolds(p, lines[0]);
      ParseHolds(lines[1..], next);
      LinesOfAppend(done, rest);
      Balance(LinesOf(done), LinesOf(rest), here, ContentLines(lines[1..], next.state != Outside), HeldLines(p), HeldLines(next));
    }
  }

  lemma Balance(xs: seq<string>, ys: seq<string>, here: seq<string>, more: seq<string>, held: multiset<string>, next: multiset<string>)
    requires multiset(xs) + next == held + multiset(here) && multiset(ys) == next + multiset(more)
    ensures multiset(xs + ys) == held + multiset(here + more)
  {
    var mx, mh, mm := multiset(xs), multiset(here), multiset(more);
    assert multiset(xs + ys) == mx + (next + mm) && multiset(here + more) == mh + mm;
    assert mx + (next + mm) == (mx + next) + mm && (held + mh) + mm == held + (mh + mm);
  }

  /** Whatever the text, well marked or not: the parse holds each of its lines but the markers, as often as it occurs. */
  lemma ParseLosesNoLine(text: string)
    ensures multiset(LinesOf(ParseMarkers(text))) == multiset(ContentLines(NormalizeLines(text), false))
  {
    ParseHolds(NormalizeLines(text), Start());
  }
}
