/** Inline conflict markers: printing a merge result, parsing marked text, resolving it. */
module Markers {
  import opened Base
  import opened ThreeWay
  import opened Text

  const MARK_OURS := "<<<<<<<"
  const MARK_BASE := "|||||||"
  const MARK_SEP := "======="
  const MARK_THEIRS := ">>>>>>>"

  /** `line.startsWith(mark)`. */
  predicate StartsWith(line: string, mark: string) {
    mark <= line
  }

  /** A line that moves the parser between the sections of a block. */
  predicate IsSection(line: string) {
    StartsWith(line, MARK_BASE) || StartsWith(line, MARK_SEP) || StartsWith(line, MARK_THEIRS)
  }

  // ---------------------------------------------------------------- printing

  function RenderBlock(c: ConflictChunk): seq<string> {
    [MARK_OURS + " Mine"] + c.local + [MARK_BASE + " Original"] + c.ancestor + [MARK_SEP]
      + c.remote + [MARK_THEIRS + " Theirs"]
  }

  /** One step of the printing loop. */
  lemma RenderUnfold(merged: seq<string>, chunks: seq<ConflictChunk>, i: nat, out: seq<string>)
    ensures var here := chunks != [] && chunks[0].startLine == i;
      out + RenderLines(merged, chunks, i) ==
        if here then (out + RenderBlock(chunks[0])) + RenderLines(merged, chunks[1..], i + Width(chunks[0]))
        else if i < |merged| then (out + [merged[i]]) + RenderLines(merged, chunks, i + 1)
        else out
  {
    if chunks != [] && chunks[0].startLine == i {
      ConcatAssociative(out, RenderBlock(chunks[0]), RenderLines(merged, chunks[1..], i + Width(chunks[0])));
    } else if i < |merged| {
      ConcatAssociative(out, [merged[i]], RenderLines(merged, chunks, i + 1));
    } else {
      assert out + [] == out;
    }
  }

  /** Stable insertion of a chunk by start line. */
  function InsertByStart(c: ConflictChunk, sorted: seq<ConflictChunk>): seq<ConflictChunk> {
    if sorted == [] || c.startLine <= sorted[0].startLine then [c] + sorted
    else [sorted[0]] + InsertByStart(c, sorted[1..])
  }

  /** `[...conflicts].sort((a, b) => a.startLine - b.startLine)`. */
  function SortByStart(chunks: seq<ConflictChunk>): seq<ConflictChunk> {
    if chunks == [] then [] else InsertByStart(chunks[0], SortByStart(chunks[1..]))
  }

  /** How many merged lines a chunk's placeholder covers. */
  function Width(c: ConflictChunk): nat {
    if c.endLine - c.startLine + 1 >= 0 then c.endLine - c.startLine + 1 else 0
  }

  function RenderLines(merged: seq<string>, chunks: seq<ConflictChunk>, i: nat): seq<string>
    decreases |chunks|, |merged| - i
  {
    if chunks != [] && chunks[0].startLine == i then
      RenderBlock(chunks[0]) + RenderLines(merged, chunks[1..], i + Width(chunks[0]))
    else if i < |merged| then [merged[i]] + RenderLines(merged, chunks, i + 1)
    else []
  }

  method RenderMarkers(result: MergeResult) returns (text: string)
    ensures text == Join(RenderLines(result.merged, SortByStart(result.conflicts), 0), LF)
  {
    var sorted := SortByStart(result.conflicts);
    var out: seq<string> := [];
    var i: nat, ci: nat := 0, 0;
    assert sorted[0..] == sorted;
    ghost var goal := RenderLines(result.merged, sorted, 0);
    while i < |result.merged| || ci < |sorted|
      invariant ci <= |sorted|
      invariant out + RenderLines(result.merged, sorted[ci..], i) == goal
      decreases |sorted| - ci, |result.merged| - i
    {
      RenderUnfold(result.merged, sorted[ci..], i, out);
      if ci < |sorted| && sorted[ci].startLine == i {
        assert sorted[ci..][1..] == sorted[ci + 1..];
        out := out + RenderBlock(sorted[ci]);
        i := i + Width(sorted[ci]);
        ci := ci + 1;
      } else if i < |result.merged| {
        out := out + [result.merged[i]];
        i := i + 1;
      } else {
        break;
      }
    }
    RenderUnfold(result.merged, sorted[ci..], i, out);
    assert out == goal;
    text := Join(out, LF);
  }

  // ----------------------------------------------------------------- parsing

  datatype Segment =
    | Clean(lines: seq<string>)
    | Conflict(ours: seq<string>, base: seq<string>, theirs: seq<string>)

  datatype Section = Outside | Ours | BaseLines | Theirs

  /** The parser's variables: its state, the clean run and the block being collected. */
  datatype Parser = Parser(
    state: Section, clean: seq<string>, ours: seq<string>, base: seq<string>, theirs: seq<string>)

  function FlushClean(clean: seq<string>): seq<Segment> {
    if |clean| > 0 then [Clean(clean)] else []
  }

  function Start(): Parser {
    Parser(Outside, [], [], [], [])
  }

  /** The segments completed by one line, and the parser after it. */
  function Feed(p: Parser, line: string): (seq<Segment>, Parser) {
    if p.state == Outside then
      if StartsWith(line, MARK_OURS) then (FlushClean(p.clean), Parser(Ours, [], [], [], []))
      else ([], p.(clean := p.clean + [line]))
    else if StartsWith(line, MARK_BASE) then ([], p.(state := BaseLines))
    else if StartsWith(line, MARK_SEP) then ([], p.(state := Theirs))
    else if StartsWith(line, MARK_THEIRS) then ([Conflict(p.ours, p.base, p.theirs)], Start())
    else if p.state == Ours then ([], p.(ours := p.ours + [line]))
    else if p.state == BaseLines then ([], p.(base := p.base + [line]))
    else ([], p.(theirs := p.theirs + [line]))
  }

  /** What is left at the end of the text: an unclosed block keeps what it captured. */
  function Finish(p: Parser): seq<Segment> {
    if p.state != Outside then [Conflict(p.ours, p.base, p.theirs)] else FlushClean(p.clean)
  }

  function ParseFrom(lines: seq<string>, p: Parser): seq<Segment> {
    if lines == [] then Finish(p)
    else
      var (done, next) := Feed(p, lines[0]);
      done + ParseFrom(lines[1..], next)
  }

  function ParseMarkers(text: string): seq<Segment> {
    ParseFrom(NormalizeLines(text), Start())
  }

  method ParseConflictMarkers(text: string) returns (segments: seq<Segment>)
    ensures segments == ParseMarkers(text)
  {
    var lines := NormalizeLines(text);
    segments := [];
    var p := Start();
    assert lines[0..] == lines;
    for k := 0 to |lines|
      invariant segments + ParseFrom(lines[k..], p) == ParseFrom(lines, Start())
    {
      var (done, next) := Feed(p, lines[k]);
      assert lines[k..][1..] == lines[k + 1..];
      ConcatAssociative(segments, done, ParseFrom(lines[k + 1..], next));
      segments, p := segments + done, next;
    }
    assert lines[|lines|..] == [];
    segments := segments + Finish(p);
  }

  predicate HasLine(lines: seq<string>, mark: string) {
    exists k :: 0 <= k < |lines| && StartsWith(lines[k], mark)
  }

  predicate HasConflictMarkers(text: string) {
    HasLine(NormalizeLines(text), MARK_OURS) && HasLine(NormalizeLines(text), MARK_THEIRS)
  }

  lemma HasLineStep(lines: seq<string>, k: nat, mark: string)
    requires k < |lines|
    ensures HasLine(lines[..k + 1], mark) <==> HasLine(lines[..k], mark) || StartsWith(lines[k], mark)
  {
    if HasLine(lines[..k], mark) {
      var j :| 0 <= j < k && StartsWith(lines[..k][j], mark);
      assert StartsWith(lines[..k + 1][j], mark);
    }
    if StartsWith(lines[k], mark) {
      assert StartsWith(lines[..k + 1][k], mark);
    }
    if HasLine(lines[..k + 1], mark) {
      var j :| 0 <= j < k + 1 && StartsWith(lines[..k + 1][j], mark);
      assert j < k ==> StartsWith(lines[..k][j], mark);
    }
  }

  lemma HasLineMore(lines: seq<string>, k: nat, mark: string)
    requires k <= |lines| && HasLine(lines[..k], mark)
    ensures HasLine(lines, mark)
  {
    var j :| 0 <= j < k && StartsWith(lines[..k][j], mark);
    assert StartsWith(lines[j], mark);
  }

  /** The scan as written: stop as soon as both markers were seen. */
  method ScanForMarkers(text: string) returns (found: bool)
    ensures found == HasConflictMarkers(text)
  {
    var lines := NormalizeLines(text);
    var hasOurs, hasTheirs := false, false;
    for k := 0 to |lines|
      invariant hasOurs == HasLine(lines[..k], MARK_OURS)
      invariant hasTheirs == HasLine(lines[..k], MARK_THEIRS)
      invariant !(hasOurs && hasTheirs)
    {
      HasLineStep(lines, k, MARK_OURS);
      HasLineStep(lines, k, MARK_THEIRS);
      if StartsWith(lines[k], MARK_OURS) {
        assert lines[k][0] == '<';
        hasOurs := true;
      } else if StartsWith(lines[k], MARK_THEIRS) {
        hasTheirs := true;
      }
      if hasOurs && hasTheirs {
        HasLineMore(lines, k + 1, MARK_OURS);
        HasLineMore(lines, k + 1, MARK_THEIRS);
        return true;
      }
    }
    assert lines[..|lines|] == lines;
    return false;
  }

  // --------------------------------------------------------------- resolving

  datatype Resolution = KeepLocal | KeepRemote | KeepBoth | Custom(text: seq<string>)

  function ResolveLines(local: seq<string>, remote: seq<string>, resolution: Resolution): seq<string> {
    match resolution
    case KeepLocal => local
    case KeepRemote => remote
    case KeepBoth => local + remote
    case Custom(text) => text
  }

  /** A block without a decision keeps the local side. */
  function Decision(resolutions: map<nat, Resolution>, ci: nat): Resolution {
    if ci in resolutions then resolutions[ci] else KeepLocal
  }

  function ResolveFrom(segments: seq<Segment>, ci: nat, resolutions: map<nat, Resolution>): seq<string> {
    if segments == [] then []
    else match segments[0]
      case Clean(lines) => lines + ResolveFrom(segments[1..], ci, resolutions)
      case Conflict(ours, _, theirs) =>
        ResolveLines(ours, theirs, Decision(resolutions, ci)) + ResolveFrom(segments[1..], ci + 1, resolutions)
  }

  method ResolveMarkedText(text: string, resolutions: map<nat, Resolution>) returns (resolved: string)
    ensures resolved == Join(ResolveFrom(ParseMarkers(text), 0, resolutions), LF)
  {
    var segments := ParseConflictMarkers(text);
    var out: seq<string> := [];
    var ci: nat := 0;
    assert segments[0..] == segments;
    for k := 0 to |segments|
      invariant out + ResolveFrom(segments[k..], ci, resolutions) == ResolveFrom(segments, 0, resolutions)
    {
      assert segments[k..][1..] == segments[k + 1..];
      match segments[k]
      case Clean(lines) =>
        ConcatAssociative(out, lines, ResolveFrom(segments[k + 1..], ci, resolutions));
        out := out + lines;
      case Conflict(ours, _, theirs) =>
        var chosen := ResolveLines(ours, theirs, Decision(resolutions, ci));
        ConcatAssociative(out, chosen, ResolveFrom(segments[k + 1..], ci + 1, resolutions));
        out := out + chosen;
        ci := ci + 1;
    }
    assert segments[|segments|..] == [] && out + [] == out;
    resolved := Join(out, LF);
  }
}
