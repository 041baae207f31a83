/** Line handling shared by the diff, the merge, the marker code, the merge decision and the clock. */
module Text {

  const LF := '\n'

  /** `parts.join(sep)`. */
  function Join(parts: seq<string>, sep: char): string {
    if |parts| == 0 then ""
    else if |parts| == 1 then parts[0]
    else parts[0] + [sep] + Join(parts[1..], sep)
  }

  /** `text.split(sep)`. */
  function Split(text: string, sep: char): (parts: seq<string>)
    ensures |parts| >= 1
    ensures forall part :: part in parts ==> sep !in part
    ensures forall part, c :: part in parts && c in part ==> c in text
  {
    if text == "" then [""]
    else
      var rest := Split(text[1..], sep);
      if text[0] == sep then [""] + rest else [[text[0]] + rest[0]] + rest[1..]
  }

  /** `text.replace(/\r\n/g, '\n')`. */
  function CrLfToLf(text: string): string {
    if text == "" then ""
    else if |text| >= 2 && text[0] == '\r' && text[1] == LF then [LF] + CrLfToLf(text[2..])
    else [text[0]] + CrLfToLf(text[1..])
  }

  /** `text.replace(/\r/g, '\n')`. */
  function CrToLf(text: string): (out: string)
    ensures '\r' !in out
  {
    if text == "" then "" else [if text[0] == '\r' then LF else text[0]] + CrToLf(text[1..])
  }

  /** The line ending normalisation every text consumer starts with. */
  function NormalizeLines(text: string): (lines: seq<string>)
    ensures |lines| >= 1
    ensures CleanLines(lines)
  {
    Split(CrToLf(CrLfToLf(text)), LF)
  }

  /** A line as normalisation produces it. */
  predicate CleanLine(line: string) {
    LF !in line && '\r' !in line
  }

  predicate CleanLines(lines: seq<string>) {
    forall line :: line in lines ==> CleanLine(line)
  }

  lemma {:induction false} SplitPrefix(part: string, rest: string, sep: char)
    requires sep !in part
    ensures Split(part, sep) == [part]
    ensures Split(part + [sep] + rest, sep) == [part] + Split(rest, sep)
  {
    var text := part + [sep] + rest;
    if part == "" {
      assert text[1..] == rest;
    } else {
      SplitPrefix(part[1..], rest, sep);
      assert text[1..] == part[1..] + [sep] + rest;
      assert [part[0]] + part[1..] == part;
    }
  }

  /** Splitting undoes joining, for every non-empty list of separator-free parts. */
  lemma {:induction false} SplitJoin(parts: seq<string>, sep: char)
    requires |parts| >= 1
    requires forall part :: part in parts ==> sep !in part
    ensures Split(Join(parts, sep), sep) == parts
  {
    if |parts| == 1 {
      SplitPrefix(parts[0], "", sep);
    } else {
      SplitPrefix(parts[0], Join(parts[1..], sep), sep);
      SplitJoin(parts[1..], sep);
    }
  }

  /** Joining undoes splitting, for every text. */
  lemma {:induction false} JoinSplit(text: string, sep: char)
    ensures Join(Split(text, sep), sep) == text
  {
    if text != "" {
      JoinSplit(text[1..], sep);
      var rest := Split(text[1..], sep);
      if text[0] != sep {
        assert ([[text[0]] + rest[0]] + rest[1..])[1..] == rest[1..];
      } else {
        assert ([""] + rest)[1..] == rest;
      }
    }
  }

  lemma {:induction false} NoCrUnchanged(text: string)
    requires '\r' !in text
    ensures CrLfToLf(text) == text && CrToLf(text) == text
  {
    if text != "" {
      NoCrUnchanged(text[1..]);
    }
  }

  lemma {:induction false} JoinNoCr(lines: seq<string>)
    requires CleanLines(lines)
    ensures '\r' !in Join(lines, LF)
  {
    if |lines| > 0 {
      assert CleanLine(lines[0]);
      JoinNoCr(lines[1..]);
    }
  }

  /** Normalising a joined list of clean lines gives the list back. */
  lemma NormalizeJoin(lines: seq<string>)
    requires |lines| >= 1 && CleanLines(lines)
    ensures NormalizeLines(Join(lines, LF)) == lines
  {
    JoinNoCr(lines);
    NoCrUnchanged(Join(lines, LF));
    SplitJoin(lines, LF);
  }

  /** Two normalised line lists are equal as soon as their joined texts are. */
  lemma JoinInjective(xs: seq<string>, ys: seq<string>)
    requires |xs| >= 1 && |ys| >= 1 && CleanLines(xs) && CleanLines(ys)
    requires Join(xs, LF) == Join(ys, LF)
    ensures xs == ys
  {
    SplitJoin(xs, LF);
    SplitJoin(ys, LF);
  }

  // ----------------------------------------------------------------- line ends

  /** How a line ends: by a line feed, by a carriage return, or by both. */
  datatype End = EndsLf | EndsCr | EndsCrLf

  function EndText(end: End): string {
    match end
    case EndsLf => "\n"
    case EndsCr => "\r"
    case EndsCrLf => "\r\n"
  }

  /** The lines of a text as it came, the `k`-th ended by `ends[k]` and the last by nothing. */
  function WithEnds(lines: seq<string>, ends: seq<End>): string
    requires |lines| == |ends| + 1
  {
    if ends == [] then lines[0] else lines[0] + EndText(ends[0]) + WithEnds(lines[1..], ends[1..])
  }

  /** No return is followed by an empty line that ends in a feed: the two would read as one end. */
  predicate EndsApart(lines: seq<string>, ends: seq<End>)
    requires |lines| == |ends| + 1
  {
    forall k :: 0 <= k < |ends| - 1 && ends[k].EndsCr? && ends[k + 1].EndsLf? ==> lines[k + 1] != ""
  }

  lemma {:induction false} CrToLfAppend(x: string, y: string)
    ensures CrToLf(x + y) == CrToLf(x) + CrToLf(y)
  {
    if x == "" {
      assert x + y == y;
    } else {
      assert (x + y)[1..] == x[1..] + y;
      CrToLfAppend(x[1..], y);
    }
  }

  lemma {:induction false} CrLfAfterLine(line: string, rest: string)
    requires '\r' !in line
    ensures CrLfToLf(line + rest) == line + CrLfToLf(rest)
  {
    if line == "" {
      assert line + rest == rest;
    } else {
      assert (line + rest)[1..] == line[1..] + rest;
      CrLfAfterLine(line[1..], rest);
      assert [line[0]] + line[1..] == line;
    }
  }

  /** One line end, whichever it is, becomes one line feed. */
  lemma EndIsOneFeed(end: End, rest: string)
    requires end.EndsCr? ==> rest == "" || rest[0] != LF
    ensures CrToLf(CrLfToLf(EndText(end) + rest)) == [LF] + CrToLf(CrLfToLf(rest))
  {
    var text := EndText(end) + rest;
    match end
    case EndsLf => assert text[1..] == rest;
    case EndsCr => assert text[1..] == rest;
    case EndsCrLf => assert text[2..] == rest;
  }

  lemma {:induction false} FeedsOnly(lines: seq<string>, ends: seq<End>)
    requires |lines| == |ends| + 1 && CleanLines(lines) && EndsApart(lines, ends)
    ensures CrToLf(CrLfToLf(WithEnds(lines, ends))) == Join(lines, LF)
    decreases |lines|
  {
    assert CleanLine(lines[0]);
    NoCrUnchanged(lines[0]);
    if ends != [] {
      var rest := WithEnds(lines[1..], ends[1..]);
      FeedsOnly(lines[1..], ends[1..]);
      StartsWithFeed(lines[1..], ends[1..]);
      assert lines[0] + EndText(ends[0]) + rest == lines[0] + (EndText(ends[0]) + rest);
      CrLfAfterLine(lines[0], EndText(ends[0]) + rest);
      CrToLfAppend(lines[0], CrLfToLf(EndText(ends[0]) + rest));
      EndIsOneFeed(ends[0], rest);
      assert lines[0] + ([LF] + Join(lines[1..], LF)) == lines[0] + [LF] + Join(lines[1..], LF);
    }
  }

  lemma StartsWithFeed(lines: seq<string>, ends: seq<End>)
    requires |lines| == |ends| + 1 && CleanLines(lines)
    ensures var text := WithEnds(lines, ends);
      text != "" && text[0] == LF ==> ends != [] && lines[0] == "" && ends[0].EndsLf?
  {
    assert CleanLine(lines[0]);
  }

  /**
   * Whatever mix of line ends a text comes with, normalising it gives its lines: a return and a feed
   * together end one line, not two.
   */
  lemma NormalizeWithEnds(lines: seq<string>, ends: seq<End>)
    requires |lines| == |ends| + 1 && CleanLines(lines) && EndsApart(lines, ends)
    ensures NormalizeLines(WithEnds(lines, ends)) == lines
  {
    FeedsOnly(lines, ends);
    SplitJoin(lines, LF);
  }
}
