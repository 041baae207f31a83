/** Layer 1 of the merge engine: the patience diff with its LCS fallback. */
module Diff {
  import opened Base

  datatype OpKind = Equal | Insert | Delete

  datatype DiffOp = DiffOp(kind: OpKind, lines: seq<string>)

  /** An index of the old text paired with an index of the new text. */
  datatype Match = Match(a: nat, b: nat)

  // ----------------------------------------------------------- edit scripts

  /** The lines a script reads: its equal and delete lines. */
  function Source(ops: seq<DiffOp>): seq<string> {
    if ops == [] then []
    else (if ops[0].kind == Insert then [] else ops[0].lines) + Source(ops[1..])
  }

  /** The lines a script writes: its equal and insert lines. */
  function Target(ops: seq<DiffOp>): seq<string> {
    if ops == [] then []
    else (if ops[0].kind == Delete then [] else ops[0].lines) + Target(ops[1..])
  }

  ghost predicate Spells(ops: seq<DiffOp>, a: seq<string>, b: seq<string>) {
    Source(ops) == a && Target(ops) == b
  }

  lemma {:induction false} SourceAppend(ops: seq<DiffOp>, more: seq<DiffOp>)
    ensures Source(ops + more) == Source(ops) + Source(more)
  {
    if ops == [] {
      assert ops + more == more;
    } else {
      var head := if ops[0].kind == Insert then [] else ops[0].lines;
      assert (ops + more)[1..] == ops[1..] + more;
      SourceAppend(ops[1..], more);
      ConcatAssociative(head, Source(ops[1..]), Source(more));
    }
  }

  lemma {:induction false} TargetAppend(ops: seq<DiffOp>, more: seq<DiffOp>)
    ensures Target(ops + more) == Target(ops) + Target(more)
  {
    if ops == [] {
      assert ops + more == more;
    } else {
      var head := if ops[0].kind == Delete then [] else ops[0].lines;
      assert (ops + more)[1..] == ops[1..] + more;
      TargetAppend(ops[1..], more);
      ConcatAssociative(head, Target(ops[1..]), Target(more));
    }
  }

  lemma SpellsAppend(ops: seq<DiffOp>, more: seq<DiffOp>)
    ensures Source(ops + more) == Source(ops) + Source(more)
    ensures Target(ops + more) == Target(ops) + Target(more)
  {
    SourceAppend(ops, more);
    TargetAppend(ops, more);
  }

  lemma SpellsOne(op: DiffOp)
    ensures Source([op]) == if op.kind == Insert then [] else op.lines
    ensures Target([op]) == if op.kind == Delete then [] else op.lines
  {
    assert [op][1..] == [];
  }

  // --------------------------------------------------------------- matchings

  /** A common subsequence of `a[aLo..aHi]` and `b[bLo..bHi]`, as strictly increasing index pairs. */
  ghost predicate CommonSubsequence(
    ms: seq<Match>, a: seq<string>, aLo: nat, aHi: nat, b: seq<string>, bLo: nat, bHi: nat)
    requires aHi <= |a| && bHi <= |b|
  {
    && (forall k :: 0 <= k < |ms| ==>
          aLo <= ms[k].a < aHi && bLo <= ms[k].b < bHi && a[ms[k].a] == b[ms[k].b])
    && (forall k, l :: 0 <= k < l < |ms| ==> ms[k].a < ms[l].a && ms[k].b < ms[l].b)
  }

  /** The index pairs a script keeps, when it starts at line `i` of the old text and line `j` of the new one. */
  function KeptPairs(ops: seq<DiffOp>, i: nat, j: nat): seq<Match> {
    if ops == [] then []
    else
      var n := |ops[0].lines|;
      match ops[0].kind
      case Equal => Diagonal(i, j, n) + KeptPairs(ops[1..], i + n, j + n)
      case Delete => KeptPairs(ops[1..], i + n, j)
      case Insert => KeptPairs(ops[1..], i, j + n)
  }

  function Diagonal(i: nat, j: nat, n: nat): seq<Match> {
    seq(n, k requires 0 <= k < n => Match(i + k, j + k))
  }

  lemma PairsCons(op: DiffOp, rest: seq<DiffOp>, i: nat, j: nat)
    ensures KeptPairs([op] + rest, i, j) ==
      (if op.kind == Equal then Diagonal(i, j, |op.lines|) else [])
        + KeptPairs(rest, i + |Source([op])|, j + |Target([op])|)
  {
    ConsParts(op, rest);
    SpellsOne(op);
    KeptHead([op] + rest, op, rest, i, j, i + |Source([op])|, j + |Target([op])|);
  }

  lemma KeptHead(ops: seq<DiffOp>, op: DiffOp, rest: seq<DiffOp>, i: nat, j: nat, i': nat, j': nat)
    requires ops != [] && ops[0] == op && ops[1..] == rest
    requires i' == (if op.kind == Insert then i else i + |op.lines|) && j' == if op.kind == Delete then j else j + |op.lines|
    ensures KeptPairs(ops, i, j) == (if op.kind == Equal then Diagonal(i, j, |op.lines|) else []) + KeptPairs(rest, i', j')
  {
    NilConcat(KeptPairs(rest, i', j'));
  }

  lemma {:induction false} KeptAppend(ops: seq<DiffOp>, more: seq<DiffOp>, i: nat, j: nat)
    ensures KeptPairs(ops + more, i, j) == KeptPairs(ops, i, j) + KeptPairs(more, i + |Source(ops)|, j + |Target(ops)|)
  {
    if ops == [] {
      NilConcat(more);
      NilConcat(KeptPairs(more, i, j));
    } else {
      var op, rest := ops[0], ops[1..];
      var i', j' := i + |Source([op])|, j + |Target([op])|;
      var head := if op.kind == Equal then Diagonal(i, j, |op.lines|) else [];
      ConsAppend(ops, more);
      SpellsAppend([op], rest);
      KeptAppend(rest, more, i', j');
      PairsCons(op, rest, i, j);
      PairsCons(op, rest + more, i, j);
      ConcatAssociative(head, KeptPairs(rest, i', j'), KeptPairs(more, i + |Source(ops)|, j + |Target(ops)|));
    }
  }

  lemma KeptOne(op: DiffOp, i: nat, j: nat)
    ensures KeptPairs([op], i, j) == if op.kind == Equal then Diagonal(i, j, |op.lines|) else []
  {
    NilConcat([op]);
    PairsCons(op, [], i, j);
    NilConcat(Diagonal(i, j, |op.lines|));
  }

  /** Script for the gap between two matches: the skipped old lines, then the skipped new lines. */
  lemma {:induction false} GapSpells(
    a: seq<string>, aLo: nat, aMid: nat, b: seq<string>, bLo: nat, bMid: nat, ops: seq<DiffOp>, more: seq<DiffOp>,
    aStart: nat, bStart: nat)
    requires aStart <= aLo <= aMid <= |a| && bStart <= bLo <= bMid <= |b|
    requires Spells(ops, a[aStart..aLo], b[bStart..bLo])
    requires Spells(more, a[aLo..aMid], b[bLo..bMid])
    ensures Spells(ops + more, a[aStart..aMid], b[bStart..bMid])
    ensures KeptPairs(ops + more, aStart, bStart) == KeptPairs(ops, aStart, bStart) + KeptPairs(more, aLo, bLo)
  {
    SpellsAppend(ops, more);
    KeptAppend(ops, more, aStart, bStart);
    SlicesJoin(a, aStart, aLo, aMid);
    SlicesJoin(b, bStart, bLo, bMid);
  }

  lemma SlicesJoin<T>(s: seq<T>, lo: nat, mid: nat, hi: nat)
    requires lo <= mid <= hi <= |s|
    ensures s[lo..mid] + s[mid..hi] == s[lo..hi]
  {
  }

  /** What an exact script keeps is a common subsequence. */
  lemma {:induction false} KeptAreCommon(
    ops: seq<DiffOp>, a: seq<string>, aLo: nat, aHi: nat, b: seq<string>, bLo: nat, bHi: nat)
    requires aLo <= aHi <= |a| && bLo <= bHi <= |b| && Spells(ops, a[aLo..aHi], b[bLo..bHi])
    ensures CommonSubsequence(KeptPairs(ops, aLo, bLo), a, aLo, aHi, b, bLo, bHi)
    decreases |ops|
  {
    if ops != [] {
      var op, rest := ops[0], ops[1..];
      ConsAppend(ops, []);
      var i, j := aLo + |Source([op])|, bLo + |Target([op])|;
      RestSpells(op, rest, ops, a, aLo, i, aHi, b, bLo, j, bHi);
      KeptAreCommon(rest, a, i, aHi, b, j, bHi);
      KeptUnfolds(ops, op, rest, aLo, bLo, i, j);
      HeadThenRest(op, a, aLo, i, aHi, b, bLo, j, bHi, KeptPairs(rest, i, j), KeptPairs(ops, aLo, bLo));
    }
  }

  lemma KeptUnfolds(ops: seq<DiffOp>, op: DiffOp, rest: seq<DiffOp>, i: nat, j: nat, i': nat, j': nat)
    requires ops == [op] + rest && i' == i + |Source([op])| && j' == j + |Target([op])|
    ensures KeptPairs(ops, i, j) == (if op.kind == Equal then Diagonal(i, j, |op.lines|) else []) + KeptPairs(rest, i', j')
  {
    PairsCons(op, rest, i, j);
  }

  lemma FirstSpells(op: DiffOp, rest: seq<DiffOp>, ops: seq<DiffOp>, x: seq<string>, y: seq<string>)
    requires ops == [op] + rest && Spells(ops, x, y)
    ensures x == Source([op]) + Source(rest) && y == Target([op]) + Target(rest)
    ensures op.kind == Equal ==> Source([op]) == op.lines == Target([op])
  {
    SpellsAppend([op], rest);
    SpellsOne(op);
  }

  lemma RestSpells(
    op: DiffOp, rest: seq<DiffOp>, ops: seq<DiffOp>, a: seq<string>, aLo: nat, i: nat, aHi: nat, b: seq<string>, bLo: nat,
    j: nat, bHi: nat)
    requires aLo <= aHi <= |a| && bLo <= bHi <= |b| && ops == [op] + rest && Spells(ops, a[aLo..aHi], b[bLo..bHi])
    requires i == aLo + |Source([op])| && j == bLo + |Target([op])|
    ensures i <= aHi && j <= bHi && Spells(rest, a[i..aHi], b[j..bHi])
    ensures op.kind == Equal ==> i - aLo == |op.lines| && a[aLo..i] == op.lines == b[bLo..j]
  {
    FirstSpells(op, rest, ops, a[aLo..aHi], b[bLo..bHi]);
    HeadOfSlice(a, aLo, aHi, Source([op]), Source(rest));
    HeadOfSlice(b, bLo, bHi, Target([op]), Target(rest));
  }

  lemma HeadThenRest(
    op: DiffOp, a: seq<string>, aLo: nat, i: nat, aHi: nat, b: seq<string>, bLo: nat, j: nat, bHi: nat, ms: seq<Match>,
    whole: seq<Match>)
    requires aLo <= i <= aHi <= |a| && bLo <= j <= bHi <= |b| && CommonSubsequence(ms, a, i, aHi, b, j, bHi)
    requires op.kind == Equal ==> i - aLo == |op.lines| && a[aLo..i] == op.lines == b[bLo..j]
    requires whole == (if op.kind == Equal then Diagonal(aLo, bLo, |op.lines|) else []) + ms
    ensures CommonSubsequence(whole, a, aLo, aHi, b, bLo, bHi)
  {
    if op.kind == Equal {
      DiagonalThen(a, aLo, i, aHi, b, bLo, j, bHi, ms);
    } else {
      NilConcat(ms);
      LaterIsWithin(a, aLo, i, aHi, b, bLo, j, bHi, ms);
    }
  }

  lemma HeadOfSlice(s: seq<string>, lo: nat, hi: nat, head: seq<string>, tail: seq<string>)
    requires lo <= hi <= |s| && s[lo..hi] == head + tail
    ensures lo + |head| <= hi && s[lo..lo + |head|] == head && s[lo + |head|..hi] == tail
  {
    assert s[lo..hi][..|head|] == head && s[lo..hi][|head|..] == tail;
  }

  lemma LaterIsWithin(
    a: seq<string>, aLo: nat, i: nat, aHi: nat, b: seq<string>, bLo: nat, j: nat, bHi: nat, ms: seq<Match>)
    requires aLo <= i <= aHi <= |a| && bLo <= j <= bHi <= |b| && CommonSubsequence(ms, a, i, aHi, b, j, bHi)
    ensures CommonSubsequence(ms, a, aLo, aHi, b, bLo, bHi)
  {
  }

  lemma DiagonalThen(
    a: seq<string>, aLo: nat, i: nat, aHi: nat, b: seq<string>, bLo: nat, j: nat, bHi: nat, ms: seq<Match>)
    requires aLo <= i <= aHi <= |a| && bLo <= j <= bHi <= |b| && a[aLo..i] == b[bLo..j]
    requires CommonSubsequence(ms, a, i, aHi, b, j, bHi)
    ensures CommonSubsequence(Diagonal(aLo, bLo, i - aLo) + ms, a, aLo, aHi, b, bLo, bHi)
  {
    forall p | aLo <= p < i ensures a[p] == b[bLo + (p - aLo)] {
      SamePlace(a, aLo, i, b, bLo, j, p);
    }
  }

  /** Two equal parts of the texts, line for line. */
  ghost predicate SameParts(a: seq<string>, aLo: nat, aHi: nat, b: seq<string>, bLo: nat, bHi: nat)
    requires aHi <= |a| && bHi <= |b|
  {
    aLo <= aHi && bLo <= bHi && a[aLo..aHi] == b[bLo..bHi]
  }

  lemma SamePlace(a: seq<string>, aLo: nat, aHi: nat, b: seq<string>, bLo: nat, bHi: nat, i: nat)
    requires aHi <= |a| && bHi <= |b| && SameParts(a, aLo, aHi, b, bLo, bHi) && aLo <= i < aHi
    ensures bLo + (i - aLo) < bHi && a[i] == b[bLo + (i - aLo)]
  {
    assert a[aLo..aHi][i - aLo] == b[bLo..bHi][i - aLo];
  }

  /** No common subsequence is longer than either part it is from. */
  lemma {:induction false} CommonIsBounded(
    ms: seq<Match>, a: seq<string>, aLo: nat, aHi: nat, b: seq<string>, bLo: nat, bHi: nat)
    requires aLo <= aHi <= |a| && bLo <= bHi <= |b| && CommonSubsequence(ms, a, aLo, aHi, b, bLo, bHi)
    ensures |ms| <= aHi - aLo && |ms| <= bHi - bLo
    decreases |ms|
  {
    if ms != [] {
      var n := |ms| - 1;
      assert forall k :: 0 <= k < n ==> ms[k].a < ms[n].a && ms[k].b < ms[n].b;
      CommonIsBounded(ms[..n], a, aLo, ms[n].a, b, bLo, ms[n].b);
    }
  }

  // ------------------------------------------------------------ LCS fallback

  /** Length of the longest common subsequence of `a[i..]` and `b[j..]`. */
  ghost function LcsLength(a: seq<string>, i: nat, b: seq<string>, j: nat): nat
    decreases |a| - i, |b| - j
  {
    if i >= |a| || j >= |b| then 0
    else if a[i] == b[j] then LcsLength(a, i + 1, b, j + 1) + 1
    else Max(LcsLength(a, i + 1, b, j), LcsLength(a, i, b, j + 1))
  }

  /** No common subsequence is longer than `LcsLength`. */
  lemma {:induction false} LcsLengthIsMaximal(a: seq<string>, i: nat, b: seq<string>, j: nat, ms: seq<Match>)
    requires i <= |a| && j <= |b|
    requires CommonSubsequence(ms, a, i, |a|, b, j, |b|)
    ensures |ms| <= LcsLength(a, i, b, j)
    decreases |a| - i, |b| - j
  {
    if ms != [] {
      var rest := ms[1..];
      assert i <= ms[0].a < |a| && j <= ms[0].b < |b|;
      if a[i] == b[j] {
        forall k | 0 <= k < |rest|
          ensures i + 1 <= rest[k].a < |a| && j + 1 <= rest[k].b < |b| && a[rest[k].a] == b[rest[k].b]
        {
          assert rest[k] == ms[k + 1] && ms[0].a < ms[k + 1].a && ms[0].b < ms[k + 1].b;
        }
        LcsLengthIsMaximal(a, i + 1, b, j + 1, rest);
      } else if ms[0].a > i {
        LcsLengthIsMaximal(a, i + 1, b, j, ms);
      } else {
        LcsLengthIsMaximal(a, i, b, j + 1, ms);
      }
    }
  }

  ghost predicate CellDone(a: seq<string>, b: seq<string>, dp: array2<nat>, p: nat, q: nat)
    requires dp.Length0 == |a| + 1 && dp.Length1 == |b| + 1
    reads dp
  {
    p <= |a| && q <= |b| ==> dp[p, q] == LcsLength(a, p, b, q)
  }

  /** The cells from row `i` down hold their values. */
  ghost predicate RowsDone(a: seq<string>, b: seq<string>, dp: array2<nat>, i: nat)
    requires dp.Length0 == |a| + 1 && dp.Length1 == |b| + 1
    reads dp
  {
    forall p: nat, q: nat :: i <= p ==> CellDone(a, b, dp, p, q)
  }

  /** The dynamic program, on whole slices. */
  method LcsTable(a: seq<string>, b: seq<string>) returns (dp: array2<nat>)
    ensures fresh(dp) && dp.Length0 == |a| + 1 && dp.Length1 == |b| + 1
    ensures RowsDone(a, b, dp, 0)
  {
    var m, n := |a|, |b|;
    dp := new nat[m + 1, n + 1]((_, _) => 0);
    var i := m;
    while i > 0
      invariant 0 <= i <= m
      invariant RowsDone(a, b, dp, i)
      invariant forall p :: 0 <= p < i ==> dp[p, n] == 0
    {
      i := i - 1;
      FillRow(a, b, dp, i);
    }
  }

  method FillRow(a: seq<string>, b: seq<string>, dp: array2<nat>, i: nat)
    requires dp.Length0 == |a| + 1 && dp.Length1 == |b| + 1 && i < |a|
    requires RowsDone(a, b, dp, i + 1) && dp[i, |b|] == 0
    modifies dp
    ensures RowsDone(a, b, dp, i)
    ensures forall p, q :: 0 <= p < i && 0 <= q <= |b| ==> dp[p, q] == old(dp[p, q])
  {
    var j := |b|;
    while j > 0
      invariant 0 <= j <= |b|
      invariant forall p: nat, q: nat :: i < p || (i == p && j <= q) ==> CellDone(a, b, dp, p, q)
      invariant forall p, q :: 0 <= p < i && 0 <= q <= |b| ==> dp[p, q] == old(dp[p, q])
    {
      j := j - 1;
      assert CellDone(a, b, dp, i + 1, j + 1) && CellDone(a, b, dp, i + 1, j) && CellDone(a, b, dp, i, j + 1);
      var cell := if a[i] == b[j] then dp[i + 1, j + 1] + 1 else Max(dp[i + 1, j], dp[i, j + 1]);
      label Before:
      dp[i, j] := cell;
      forall p: nat, q: nat | i < p || (i == p && j <= q) ensures CellDone(a, b, dp, p, q) {
        if p != i || q != j {
          assert old@Before(CellDone(a, b, dp, p, q));
        }
      }
    }
  }

  /** A common subsequence of a range is one of the slices, shifted. */
  lemma RangeBoundedBySlice(
    a: seq<string>, aLo: nat, aHi: nat, b: seq<string>, bLo: nat, bHi: nat, ms: seq<Match>)
    requires aLo <= aHi <= |a| && bLo <= bHi <= |b|
    requires CommonSubsequence(ms, a, aLo, aHi, b, bLo, bHi)
    ensures |ms| <= LcsLength(a[aLo..aHi], 0, b[bLo..bHi], 0)
  {
    var shifted := seq(|ms|, k requires 0 <= k < |ms| => Match(ms[k].a - aLo, ms[k].b - bLo));
    LcsLengthIsMaximal(a[aLo..aHi], 0, b[bLo..bHi], 0, shifted);
  }

  function Shift(ms: seq<Match>, aLo: nat, bLo: nat): seq<Match> {
    seq(|ms|, k requires 0 <= k < |ms| => Match(aLo + ms[k].a, bLo + ms[k].b))
  }

  lemma ShiftedSlice(
    a: seq<string>, aLo: nat, aHi: nat, b: seq<string>, bLo: nat, bHi: nat, ms: seq<Match>)
    requires aLo <= aHi <= |a| && bLo <= bHi <= |b|
    requires CommonSubsequence(ms, a[aLo..aHi], 0, aHi - aLo, b[bLo..bHi], 0, bHi - bLo)
    ensures CommonSubsequence(Shift(ms, aLo, bLo), a, aLo, aHi, b, bLo, bHi)
  {
  }

  /** The walk down the table: a common subsequence of the slices as long as `LcsLength`. */
  method WalkTable(a: seq<string>, b: seq<string>, dp: array2<nat>) returns (ms: seq<Match>)
    requires dp.Length0 == |a| + 1 && dp.Length1 == |b| + 1
    requires RowsDone(a, b, dp, 0)
    ensures CommonSubsequence(ms, a, 0, |a|, b, 0, |b|)
    ensures |ms| == LcsLength(a, 0, b, 0)
  {
    ms := [];
    var i, j := 0, 0;
    while i < |a| && j < |b|
      invariant 0 <= i <= |a| && 0 <= j <= |b|
      invariant CommonSubsequence(ms, a, 0, i, b, 0, j)
      invariant |ms| + LcsLength(a, i, b, j) == LcsLength(a, 0, b, 0)
      decreases |a| - i + |b| - j
    {
      assert CellDone(a, b, dp, i + 1, j) && CellDone(a, b, dp, i, j + 1);
      if a[i] == b[j] {
        ms := ms + [Match(i, j)];
        i, j := i + 1, j + 1;
      } else if dp[i + 1, j] >= dp[i, j + 1] {
        i := i + 1;
      } else {
        j := j + 1;
      }
    }
  }

  /** The fallback finds a longest common subsequence of its range. */
  method MyersLcs(a: seq<string>, aLo: nat, aHi: nat, b: seq<string>, bLo: nat, bHi: nat) returns (lcs: seq<Match>)
    requires aLo <= aHi <= |a| && bLo <= bHi <= |b|
    ensures CommonSubsequence(lcs, a, aLo, aHi, b, bLo, bHi)
    ensures forall ms: seq<Match> :: CommonSubsequence(ms, a, aLo, aHi, b, bLo, bHi) ==> |ms| <= |lcs|
  {
    forall ms: seq<Match> | CommonSubsequence(ms, a, aLo, aHi, b, bLo, bHi)
      ensures |ms| <= LcsLength(a[aLo..aHi], 0, b[bLo..bHi], 0)
    {
      RangeBoundedBySlice(a, aLo, aHi, b, bLo, bHi, ms);
    }
    var aSlice, bSlice := a[aLo..aHi], b[bLo..bHi];
    if |aSlice| == 0 || |bSlice| == 0 {
      return [];
    }
    var dp := LcsTable(aSlice, bSlice);
    var ms := WalkTable(aSlice, bSlice, dp);
    ShiftedSlice(a, aLo, aHi, b, bLo, bHi, ms);
    lcs := Shift(ms, aLo, bLo);
  }

  lemma OneLine(s: seq<string>, i: nat)
    requires i < |s|
    ensures s[i..i + 1] == [s[i]]
  {
  }

  /** Pushing a matched line extends the script by that line on both sides. */
  lemma EqualSpells(
    a: seq<string>, aLo: nat, ai: nat, b: seq<string>, bLo: nat, bi: nat, ops: seq<DiffOp>)
    requires aLo <= ai < |a| && bLo <= bi < |b| && a[ai] == b[bi]
    requires Spells(ops, a[aLo..ai], b[bLo..bi])
    ensures Spells(ops + [DiffOp(Equal, [a[ai]])], a[aLo..ai + 1], b[bLo..bi + 1])
    ensures KeptPairs(ops + [DiffOp(Equal, [a[ai]])], aLo, bLo) == KeptPairs(ops, aLo, bLo) + [Match(ai, bi)]
  {
    var op := DiffOp(Equal, [a[ai]]);
    KeptOne(op, ai, bi);
    assert Diagonal(ai, bi, 1) == [Match(ai, bi)];
    SpellsOne(op);
    OneLine(a, ai);
    OneLine(b, bi);
    GapSpells(a, ai, ai + 1, b, bi, bi + 1, ops, [op], aLo, bLo);
  }

  method EmitFromLcs(
    a: seq<string>, aLo: nat, aHi: nat, b: seq<string>, bLo: nat, bHi: nat, lcs: seq<Match>)
    returns (ops: seq<DiffOp>)
    requires aLo <= aHi <= |a| && bLo <= bHi <= |b|
    requires CommonSubsequence(lcs, a, aLo, aHi, b, bLo, bHi)
    ensures Spells(ops, a[aLo..aHi], b[bLo..bHi]) && KeptPairs(ops, aLo, bLo) == lcs
  {
    ops := [];
    var ai, bi := aLo, bLo;
    for k := 0 to |lcs|
      invariant aLo <= ai <= aHi && bLo <= bi <= bHi
      invariant forall l :: k <= l < |lcs| ==> ai <= lcs[l].a && bi <= lcs[l].b
      invariant Spells(ops, a[aLo..ai], b[bLo..bi]) && KeptPairs(ops, aLo, bLo) == lcs[..k]
    {
      var la, lb := lcs[k].a, lcs[k].b;
      SliceSnoc(lcs, k);
      ops := EmitGap(a, aLo, ai, la, b, bLo, bi, lb, ops);
      EqualSpells(a, aLo, la, b, bLo, lb, ops);
      ops := ops + [DiffOp(Equal, [a[la]])];
      ai, bi := la + 1, lb + 1;
    }
    SliceEnds(lcs, |lcs|);
    ops := EmitGap(a, aLo, ai, aHi, b, bLo, bi, bHi, ops);
  }

  /** The two guarded pushes that flush the lines skipped since the last match. */
  method EmitGap(
    a: seq<string>, aLo: nat, ai: nat, aTo: nat, b: seq<string>, bLo: nat, bi: nat, bTo: nat, ops0: seq<DiffOp>)
    returns (ops: seq<DiffOp>)
    requires aLo <= ai <= aTo <= |a| && bLo <= bi <= bTo <= |b|
    requires Spells(ops0, a[aLo..ai], b[bLo..bi])
    ensures Spells(ops, a[aLo..aTo], b[bLo..bTo]) && KeptPairs(ops, aLo, bLo) == KeptPairs(ops0, aLo, bLo)
  {
    ops := ops0;
    if ai < aTo {
      var op := DiffOp(Delete, a[ai..aTo]);
      SpellsOne(op);
      KeptOne(op, ai, bi);
      NilConcat(KeptPairs(ops0, aLo, bLo));
      GapSpells(a, ai, aTo, b, bi, bi, ops, [op], aLo, bLo);
      ops := ops + [op];
    }
    if bi < bTo {
      var op := DiffOp(Insert, b[bi..bTo]);
      SpellsOne(op);
      KeptOne(op, aTo, bi);
      NilConcat(KeptPairs(ops0, aLo, bLo));
      GapSpells(a, aTo, aTo, b, bi, bTo, ops, [op], aLo, bLo);
      ops := ops + [op];
    }
  }

  // --------------------------------------------------------- patience anchors

  /** `line` sits at index `i` of the range and nowhere else in it. */
  ghost predicate UniqueAt(s: seq<string>, lo: nat, hi: nat, i: nat) {
    lo <= i < hi <= |s| && forall k :: lo <= k < hi && s[k] == s[i] ==> k == i
  }

  ghost predicate UniqueMatch(
    m: Match, a: seq<string>, aLo: nat, aHi: nat, b: seq<string>, bLo: nat, bHi: nat)
  {
    UniqueAt(a, aLo, aHi, m.a) && UniqueAt(b, bLo, bHi, m.b) && a[m.a] == b[m.b]
  }

  /** Occurrence lists of a range: every index exactly once, in increasing order. */
  ghost predicate Occurrences(counts: map<string, seq<nat>>, s: seq<string>, lo: nat, hi: nat)
    requires hi <= |s|
  {
    && (forall line :: line in counts ==> |counts[line]| > 0)
    && (forall line, k :: line in counts && 0 <= k < |counts[line]| ==>
          lo <= counts[line][k] < hi && s[counts[line][k]] == line)
    && (forall line, k, l :: line in counts && 0 <= k < l < |counts[line]| ==> counts[line][k] < counts[line][l])
    && (forall i :: lo <= i < hi ==> s[i] in counts && i in counts[s[i]])
  }

  function AddOccurrence(counts: map<string, seq<nat>>, line: string, i: nat): map<string, seq<nat>> {
    counts[line := (if line in counts then counts[line] else []) + [i]]
  }

  lemma OccurrencesExtend(counts: map<string, seq<nat>>, s: seq<string>, lo: nat, i: nat)
    requires lo <= i < |s| && Occurrences(counts, s, lo, i)
    ensures Occurrences(AddOccurrence(counts, s[i], i), s, lo, i + 1)
  {
    var next := AddOccurrence(counts, s[i], i);
    forall line, k, l | line in next && 0 <= k < l < |next[line]| ensures next[line][k] < next[line][l] {
      if line != s[i] {
        assert next[line] == counts[line];
      }
    }
    forall j | lo <= j < i + 1 ensures s[j] in next && j in next[s[j]] {
      if j == i {
        assert next[s[i]][|next[s[i]]| - 1] == i;
      } else {
        assert j in counts[s[j]];
      }
    }
  }

  method CountLines(s: seq<string>, lo: nat, hi: nat) returns (counts: map<string, seq<nat>>)
    requires lo <= hi <= |s|
    ensures Occurrences(counts, s, lo, hi)
  {
    counts := map[];
    for i := lo to hi
      invariant Occurrences(counts, s, lo, i)
    {
      OccurrencesExtend(counts, s, lo, i);
      counts := AddOccurrence(counts, s[i], i);
    }
  }

  lemma NotConstant(xs: seq<nat>, i: nat)
    requires |xs| >= 2 && xs[0] < xs[1]
    ensures !(forall k :: 0 <= k < |xs| ==> xs[k] == i)
  {
    if xs[0] == i {
      assert xs[1] != i;
    }
  }

  lemma SingletonIsUnique(counts: map<string, seq<nat>>, s: seq<string>, lo: nat, hi: nat, line: string)
    requires hi <= |s| && Occurrences(counts, s, lo, hi)
    ensures line in counts && |counts[line]| == 1 ==> UniqueAt(s, lo, hi, counts[line][0])
    ensures forall i: nat :: UniqueAt(s, lo, hi, i) && s[i] == line ==> line in counts && counts[line] == [i]
  {
    forall i: nat | UniqueAt(s, lo, hi, i) && s[i] == line ensures line in counts && counts[line] == [i] {
      var found := counts[line];
      assert forall k :: 0 <= k < |found| ==> s[found[k]] == line && found[k] == i;
      if |found| >= 2 {
        NotConstant(found, i);
        assert false;
      }
    }
  }

  ghost predicate SortedByA(pairs: seq<Match>) {
    forall k, l :: 0 <= k < l < |pairs| ==> pairs[k].a < pairs[l].a
  }

  /** One step of the sort by old index, on pairs whose old indices are distinct. */
  method InsertByA(pairs: seq<Match>, m: Match) returns (sorted: seq<Match>)
    requires SortedByA(pairs) && forall p :: p in pairs ==> p.a != m.a
    ensures SortedByA(sorted)
    ensures forall p :: p in sorted <==> p in pairs || p == m
  {
    var k := |pairs|;
    while k > 0 && pairs[k - 1].a > m.a
      invariant 0 <= k <= |pairs|
      invariant forall l :: k <= l < |pairs| ==> m.a < pairs[l].a
    {
      k := k - 1;
    }
    sorted := pairs[..k] + [m] + pairs[k..];
    if k > 0 {
      assert pairs[k - 1] in pairs;
    }
    PutInOrder(pairs, k, m);
    PutMembers(pairs, k, m);
  }

  lemma PutInOrder(pairs: seq<Match>, k: nat, m: Match)
    requires SortedByA(pairs) && k <= |pairs|
    requires k > 0 ==> pairs[k - 1].a < m.a
    requires forall l :: k <= l < |pairs| ==> m.a < pairs[l].a
    ensures SortedByA(pairs[..k] + [m] + pairs[k..])
  {
  }

  lemma PutMembers(pairs: seq<Match>, k: nat, m: Match)
    requires k <= |pairs|
    ensures forall p :: p in pairs[..k] + [m] + pairs[k..] <==> p in pairs || p == m
  {
    assert pairs == pairs[..k] + pairs[k..];
  }

  /** All lines that occur exactly once on both sides, in old-index order. */
  method UniquePairs(a: seq<string>, aLo: nat, aHi: nat, b: seq<string>, bLo: nat, bHi: nat)
    returns (pairs: seq<Match>)
    requires aLo <= aHi <= |a| && bLo <= bHi <= |b|
    ensures SortedByA(pairs)
    ensures forall m :: m in pairs <==> UniqueMatch(m, a, aLo, aHi, b, bLo, bHi)
  {
    var aCount := CountLines(a, aLo, aHi);
    var bCount := CountLines(b, bLo, bHi);
    pairs := [];
    var todo := aCount.Keys;
    while todo != {}
      invariant todo <= aCount.Keys
      invariant SortedByA(pairs)
      invariant forall m :: m in pairs <==>
                  UniqueMatch(m, a, aLo, aHi, b, bLo, bHi) && a[m.a] !in todo
      decreases todo
    {
      var line :| line in todo;
      SingletonIsUnique(aCount, a, aLo, aHi, line);
      SingletonIsUnique(bCount, b, bLo, bHi, line);
      var aIdxs := aCount[line];
      if |aIdxs| == 1 && line in bCount && |bCount[line]| == 1 {
        pairs := InsertByA(pairs, Match(aIdxs[0], bCount[line][0]));
      }
      todo := todo - {line};
    }
  }

  /** A strictly increasing subsequence of `pairs`, given by the positions it picks. */
  ghost predicate IncreasingPick(picks: seq<nat>, pairs: seq<Match>) {
    && (forall k :: 0 <= k < |picks| ==> picks[k] < |pairs|)
    && (forall k, l :: 0 <= k < l < |picks| ==> picks[k] < picks[l] && pairs[picks[k]].b < pairs[picks[l]].b)
  }

  /** Every pile top is the last pair its pile received. */
  ghost predicate Topped(pairs: seq<Match>, piles: seq<Match>, pileTop: seq<nat>, pile: seq<nat>) {
    && |pile| <= |pairs| && |pileTop| == |piles|
    && forall p :: 0 <= p < |piles| ==>
         pileTop[p] < |pile| && pile[pileTop[p]] == p && piles[p] == pairs[pileTop[p]]
  }

  ghost predicate Ascending(piles: seq<Match>) {
    forall p, q :: 0 <= p < q < |piles| ==> piles[p].b < piles[q].b
  }

  /** Each pile's top is the smallest new index the pile received. */
  ghost predicate TopsSmallest(pairs: seq<Match>, piles: seq<Match>, pile: seq<nat>) {
    |pile| <= |pairs| && forall k :: 0 <= k < |pile| ==> pile[k] < |piles| && piles[pile[k]].b <= pairs[k].b
  }

  /** A pair sits on a higher pile than every smaller pair before it. */
  ghost predicate Climbing(pairs: seq<Match>, pile: seq<nat>) {
    |pile| <= |pairs| && forall k, l :: 0 <= k < l < |pile| && pairs[k].b < pairs[l].b ==> pile[k] < pile[l]
  }

  ghost predicate Linked(pairs: seq<Match>, prev: seq<int>, pile: seq<nat>, k: nat)
    requires k < |pile| <= |pairs| == |prev|
  {
    if pile[k] == 0 then prev[k] == -1
    else 0 <= prev[k] < k && pile[prev[k]] == pile[k] - 1 && pairs[prev[k]].b < pairs[k].b
  }

  /** The state of the patience sort: `pile[k]` is the pile that pair `k` went to. */
  ghost predicate Sorting(
    pairs: seq<Match>, piles: seq<Match>, pileTop: seq<nat>, prev: seq<int>, pile: seq<nat>)
  {
    && |prev| == |pairs|
    && Topped(pairs, piles, pileTop, pile)
    && Ascending(piles)
    && TopsSmallest(pairs, piles, pile)
    && Climbing(pairs, pile)
    && forall k :: 0 <= k < |pile| ==> Linked(pairs, prev, pile, k)
  }

  function Put<T>(s: seq<T>, k: nat, x: T): seq<T>
    requires k <= |s|
  {
    if k == |s| then s + [x] else s[k := x]
  }

  /** `lo` is where the binary search puts the pair of new index `bVal`. */
  ghost predicate Fits(piles: seq<Match>, lo: nat, bVal: nat) {
    && lo <= |piles|
    && (forall p :: 0 <= p < lo ==> piles[p].b < bVal)
    && (forall p :: lo <= p < |piles| ==> bVal <= piles[p].b)
  }

  /** The binary search, reading pile tops through `pairs` (see README on the lookup). */
  method FindPile(pairs: seq<Match>, ghost piles: seq<Match>, pileTop: seq<nat>, ghost pile: seq<nat>, bVal: nat)
    returns (lo: nat)
    requires Topped(pairs, piles, pileTop, pile) && Ascending(piles)
    ensures Fits(piles, lo, bVal)
  {
    lo := 0;
    var hi := |pileTop|;
    while lo < hi
      invariant 0 <= lo <= hi <= |pileTop|
      invariant forall p :: 0 <= p < lo ==> piles[p].b < bVal
      invariant forall p :: hi <= p < |piles| ==> bVal <= piles[p].b
    {
      var mid := (lo + hi) / 2;
      assert piles[mid] == pairs[pileTop[mid]];
      if pairs[pileTop[mid]].b < bVal {
        lo := mid + 1;
      } else {
        hi := mid;
      }
    }
  }

  lemma ToppedStep(pairs: seq<Match>, piles: seq<Match>, pileTop: seq<nat>, pile: seq<nat>, lo: nat)
    requires |pile| < |pairs| && Topped(pairs, piles, pileTop, pile) && lo <= |piles|
    ensures Topped(pairs, Put(piles, lo, pairs[|pile|]), Put(pileTop, lo, |pile|), pile + [lo])
  {
    var piles', pileTop', pile' := Put(piles, lo, pairs[|pile|]), Put(pileTop, lo, |pile|), pile + [lo];
    forall p | 0 <= p < |piles'|
      ensures pileTop'[p] < |pile'| && pile'[pileTop'[p]] == p && piles'[p] == pairs[pileTop'[p]]
    {
      if p != lo {
        assert piles'[p] == piles[p] && pileTop'[p] == pileTop[p];
      }
    }
  }

  lemma AscendingStep(piles: seq<Match>, lo: nat, m: Match)
    requires Ascending(piles) && Fits(piles, lo, m.b)
    ensures Ascending(Put(piles, lo, m))
  {
  }

  lemma TopsSmallestStep(pairs: seq<Match>, piles: seq<Match>, pile: seq<nat>, lo: nat)
    requires |pile| < |pairs| && TopsSmallest(pairs, piles, pile) && Fits(piles, lo, pairs[|pile|].b)
    ensures TopsSmallest(pairs, Put(piles, lo, pairs[|pile|]), pile + [lo])
  {
    var piles', pile' := Put(piles, lo, pairs[|pile|]), pile + [lo];
    forall k | 0 <= k < |pile'| ensures pile'[k] < |piles'| && piles'[pile'[k]].b <= pairs[k].b {
      if k < |pile| {
        assert pile'[k] == pile[k];
        assert piles'[pile[k]].b <= piles[pile[k]].b;
      }
    }
  }

  lemma ClimbingStep(pairs: seq<Match>, piles: seq<Match>, pile: seq<nat>, lo: nat)
    requires |pile| < |pairs| && TopsSmallest(pairs, piles, pile) && Climbing(pairs, pile)
    requires Fits(piles, lo, pairs[|pile|].b)
    ensures Climbing(pairs, pile + [lo])
  {
  }

  lemma LinkedStep(
    pairs: seq<Match>, piles: seq<Match>, pileTop: seq<nat>, prev: seq<int>, pile: seq<nat>, lo: nat, k: nat)
    requires |pile| < |pairs| == |prev| && Topped(pairs, piles, pileTop, pile)
    requires Fits(piles, lo, pairs[|pile|].b)
    requires k <= |pile| && (k < |pile| ==> Linked(pairs, prev, pile, k))
    ensures Linked(pairs, prev[|pile| := if lo > 0 then pileTop[lo - 1] else -1], pile + [lo], k)
  {
  }

  lemma SortingStep(
    pairs: seq<Match>, piles: seq<Match>, pileTop: seq<nat>, prev: seq<int>, pile: seq<nat>, lo: nat)
    requires |pile| < |pairs| && Sorting(pairs, piles, pileTop, prev, pile)
    requires Fits(piles, lo, pairs[|pile|].b)
    ensures Sorting(pairs, Put(piles, lo, pairs[|pile|]), Put(pileTop, lo, |pile|),
                    prev[|pile| := if lo > 0 then pileTop[lo - 1] else -1], pile + [lo])
  {
    ToppedStep(pairs, piles, pileTop, pile, lo);
    AscendingStep(piles, lo, pairs[|pile|]);
    TopsSmallestStep(pairs, piles, pile, lo);
    ClimbingStep(pairs, piles, pile, lo);
    var prev', pile' := prev[|pile| := if lo > 0 then pileTop[lo - 1] else -1], pile + [lo];
    forall k | 0 <= k < |pile'| ensures Linked(pairs, prev', pile', k) {
      LinkedStep(pairs, piles, pileTop, prev, pile, lo, k);
    }
  }

  /** An increasing pick climbs at least one pile per element. */
  lemma {:induction false} PicksClimb(pairs: seq<Match>, piles: seq<Match>, pile: seq<nat>, picks: seq<nat>)
    requires |pile| == |pairs| && TopsSmallest(pairs, piles, pile) && Climbing(pairs, pile)
    requires IncreasingPick(picks, pairs)
    ensures picks != [] ==> |picks| - 1 <= pile[picks[|picks| - 1]] < |piles|
  {
    if |picks| >= 2 {
      var n := |picks|;
      PicksClimb(pairs, piles, pile, picks[..n - 1]);
      assert pairs[picks[n - 2]].b < pairs[picks[n - 1]].b;
    }
  }

  /** The subsequence of `pairs` at the positions `picks`. */
  ghost predicate Picked(picks: seq<nat>, pairs: seq<Match>, ms: seq<Match>) {
    |ms| == |picks| && forall k :: 0 <= k < |picks| ==> picks[k] < |pairs| && ms[k] == pairs[picks[k]]
  }

  /** The dealing loop of the patience sort. */
  method DealPiles(pairs: seq<Match>)
    returns (piles: seq<Match>, pileTop: seq<nat>, prev: seq<int>, ghost pile: seq<nat>)
    ensures |pile| == |pairs| && Sorting(pairs, piles, pileTop, prev, pile)
  {
    piles, pileTop, pile := [], [], [];
    prev := seq(|pairs|, _ => -1);
    for i := 0 to |pairs|
      invariant |pile| == i
      invariant Sorting(pairs, piles, pileTop, prev, pile)
    {
      var lo := FindPile(pairs, piles, pileTop, pile, pairs[i].b);
      SortingStep(pairs, piles, pileTop, prev, pile, lo);
      var link := if lo > 0 then pileTop[lo - 1] else -1;
      prev, pileTop, piles, pile := prev[i := link], Put(pileTop, lo, i), Put(piles, lo, pairs[i]), pile + [lo];
    }
  }

  /** The patience sort returns a longest subsequence of `pairs` whose new indices increase. */
  method LongestIncreasingSubsequence(pairs: seq<Match>) returns (result: seq<Match>, ghost picks: seq<nat>)
    ensures IncreasingPick(picks, pairs) && Picked(picks, pairs, result)
    ensures forall other :: IncreasingPick(other, pairs) ==> |other| <= |result|
  {
    if |pairs| == 0 {
      result, picks := [], [];
      NoneFromNothing(pairs);
      return;
    }
    var piles, pileTop, prev;
    ghost var pile;
    piles, pileTop, prev, pile := DealPiles(pairs);
    assert pile[0] < |piles|;
    NoneLonger(pairs, piles, pile);
    result, picks := FollowChain(pairs, piles, pileTop, prev, pile);
  }

  lemma NoneFromNothing(pairs: seq<Match>)
    requires pairs == []
    ensures forall other :: IncreasingPick(other, pairs) ==> |other| <= 0
  {
    forall other: seq<nat> | IncreasingPick(other, pairs) ensures |other| <= 0 {
      var first: nat := if other == [] then 0 else other[0];
      assert other == [] || first < |pairs|;
    }
  }

  lemma NoneLonger(pairs: seq<Match>, piles: seq<Match>, pile: seq<nat>)
    requires |pile| == |pairs| && TopsSmallest(pairs, piles, pile) && Climbing(pairs, pile)
    ensures forall other :: IncreasingPick(other, pairs) ==> |other| <= |piles|
  {
    forall other | IncreasingPick(other, pairs) ensures |other| <= |piles| {
      PicksClimb(pairs, piles, pile, other);
    }
  }

  lemma PickFront(pairs: seq<Match>, k: nat, picks: seq<nat>)
    requires k < |pairs| && IncreasingPick(picks, pairs)
    requires picks != [] ==> k < picks[0] && pairs[k].b < pairs[picks[0]].b
    ensures IncreasingPick([k] + picks, pairs)
  {
  }

  /** The reconstruction loop: walk the predecessor chain down from the last pile. */
  method FollowChain(
    pairs: seq<Match>, piles: seq<Match>, pileTop: seq<nat>, prev: seq<int>, ghost pile: seq<nat>)
    returns (result: seq<Match>, ghost picks: seq<nat>)
    requires |pile| == |pairs| && Sorting(pairs, piles, pileTop, prev, pile) && |piles| > 0
    ensures |result| == |piles|
    ensures IncreasingPick(picks, pairs) && Picked(picks, pairs, result)
  {
    result := [];
    picks := [];
    var k: int := pileTop[|piles| - 1];
    while k != -1
      invariant -1 <= k < |pairs|
      invariant |result| + (if k == -1 then 0 else pile[k] + 1) == |piles|
      invariant IncreasingPick(picks, pairs)
      invariant Picked(picks, pairs, result)
      invariant k != -1 && picks != [] ==> k < picks[0] && pairs[k].b < pairs[picks[0]].b
      decreases k
    {
      assert Linked(pairs, prev, pile, k);
      PickFront(pairs, k, picks);
      result := [pairs[k]] + result;
      picks := [k] + picks;
      k := prev[k];
    }
  }

  /** The anchors: a longest strictly increasing chain of lines unique on both sides. */
  method PatienceAnchors(a: seq<string>, aLo: nat, aHi: nat, b: seq<string>, bLo: nat, bHi: nat)
    returns (anchors: seq<Match>)
    requires aLo <= aHi <= |a| && bLo <= bHi <= |b|
    ensures CommonSubsequence(anchors, a, aLo, aHi, b, bLo, bHi)
    ensures forall m :: m in anchors ==> UniqueMatch(m, a, aLo, aHi, b, bLo, bHi)
    ensures (exists m :: UniqueMatch(m, a, aLo, aHi, b, bLo, bHi)) ==> anchors != []
    ensures LongestChain(anchors, a, aLo, aHi, b, bLo, bHi)
  {
    var pairs := UniquePairs(a, aLo, aHi, b, bLo, bHi);
    ghost var picks;
    anchors, picks := LongestIncreasingSubsequence(pairs);
    PickedAnchors(a, aLo, aHi, b, bLo, bHi, pairs, picks, anchors);
    forall other | UniqueChain(other, a, aLo, aHi, b, bLo, bHi) ensures |other| <= |anchors| {
      var theirs := ChainIsPick(other, pairs, a, aLo, aHi, b, bLo, bHi);
    }
    if m :| UniqueMatch(m, a, aLo, aHi, b, bLo, bHi) {
      assert m in pairs;
      assert IncreasingPick([0], pairs);
    }
  }

  lemma PickedAnchors(
    a: seq<string>, aLo: nat, aHi: nat, b: seq<string>, bLo: nat, bHi: nat, pairs: seq<Match>, picks: seq<nat>,
    anchors: seq<Match>)
    requires aLo <= aHi <= |a| && bLo <= bHi <= |b|
    requires SortedByA(pairs) && forall p :: p in pairs ==> UniqueMatch(p, a, aLo, aHi, b, bLo, bHi)
    requires IncreasingPick(picks, pairs) && Picked(picks, pairs, anchors)
    ensures CommonSubsequence(anchors, a, aLo, aHi, b, bLo, bHi)
    ensures forall m :: m in anchors ==> UniqueMatch(m, a, aLo, aHi, b, bLo, bHi)
  {
    forall k | 0 <= k < |anchors| ensures UniqueMatch(anchors[k], a, aLo, aHi, b, bLo, bHi) {
      assert pairs[picks[k]] in pairs;
    }
  }

  // --------------------------------------------------------- what the diff keeps

  /** A chain of lines unique on both sides, ascending on both. */
  ghost predicate UniqueChain(chain: seq<Match>, a: seq<string>, aLo: nat, aHi: nat, b: seq<string>, bLo: nat, bHi: nat)
    requires aHi <= |a| && bHi <= |b|
  {
    && CommonSubsequence(chain, a, aLo, aHi, b, bLo, bHi)
    && forall m :: m in chain ==> UniqueMatch(m, a, aLo, aHi, b, bLo, bHi)
  }

  ghost predicate LongestChain(chain: seq<Match>, a: seq<string>, aLo: nat, aHi: nat, b: seq<string>, bLo: nat, bHi: nat)
    requires aHi <= |a| && bHi <= |b|
  {
    && UniqueChain(chain, a, aLo, aHi, b, bLo, bHi)
    && forall other :: UniqueChain(other, a, aLo, aHi, b, bLo, bHi) ==> |other| <= |chain|
  }

  /** Each chain picks, in order, pairs that are listed. */
  lemma {:induction false} ChainIsPick(
    chain: seq<Match>, pairs: seq<Match>, a: seq<string>, aLo: nat, aHi: nat, b: seq<string>, bLo: nat, bHi: nat)
    returns (picks: seq<nat>)
    requires aHi <= |a| && bHi <= |b| && SortedByA(pairs) && UniqueChain(chain, a, aLo, aHi, b, bLo, bHi)
    requires forall m :: m in pairs <==> UniqueMatch(m, a, aLo, aHi, b, bLo, bHi)
    ensures IncreasingPick(picks, pairs) && |picks| == |chain| && forall k :: 0 <= k < |picks| ==> pairs[picks[k]] == chain[k]
    decreases |chain|
  {
    picks := [];
    if chain != [] {
      var n := |chain| - 1;
      assert chain[..n] <= chain && forall m :: m in chain[..n] ==> m in chain;
      picks := ChainIsPick(chain[..n], pairs, a, aLo, aHi, b, bLo, bHi);
      assert chain[n] in pairs;
      var k: nat :| k < |pairs| && pairs[k] == chain[n];
      PickAfter(picks, pairs, k);
      picks := picks + [k];
    }
  }

  /** A pick goes on with any pair beyond all it picked, on both sides. */
  lemma PickAfter(picks: seq<nat>, pairs: seq<Match>, k: nat)
    requires SortedByA(pairs) && IncreasingPick(picks, pairs) && k < |pairs|
    requires forall j :: 0 <= j < |picks| ==> pairs[picks[j]].a < pairs[k].a && pairs[picks[j]].b < pairs[k].b
    ensures IncreasingPick(picks + [k], pairs)
  {
    forall j | 0 <= j < |picks| ensures picks[j] < k {
      assert pairs[picks[j]].a < pairs[k].a;
    }
  }

  /** In equal parts a unique line matches the line at the same place. */
  lemma UniqueIsDiagonal(m: Match, a: seq<string>, aLo: nat, aHi: nat, b: seq<string>, bLo: nat, bHi: nat)
    requires aHi <= |a| && bHi <= |b| && SameParts(a, aLo, aHi, b, bLo, bHi) && UniqueMatch(m, a, aLo, aHi, b, bLo, bHi)
    ensures m.a - aLo == m.b - bLo
  {
    SamePlace(a, aLo, aHi, b, bLo, bHi, m.a);
  }

  /** Parts that have a line in common. */
  ghost predicate ShareALine(a: seq<string>, aLo: nat, aHi: nat, b: seq<string>, bLo: nat, bHi: nat)
    requires aHi <= |a| && bHi <= |b|
  {
    exists i, j :: aLo <= i < aHi && bLo <= j < bHi && a[i] == b[j]
  }

  /** Which chains of a part may split it: a relation over the chain and the two ranges. */
  type Choice = (seq<Match>, nat, nat, nat, nat) -> bool

  ghost function Longest(a: seq<string>, b: seq<string>): Choice {
    (chain: seq<Match>, aLo: nat, aHi: nat, bLo: nat, bHi: nat) =>
      aHi <= |a| && bHi <= |b| && LongestChain(chain, a, aLo, aHi, b, bLo, bHi)
  }

  /**
   * What is kept of two parts, all the way down: without a line unique on both sides as much as any
   * script can keep, and else the lines of a chosen chain and, in every gap between them, the same again.
   */
  ghost predicate Patient(
    choice: Choice, kept: seq<Match>, a: seq<string>, aLo: nat, aHi: nat, b: seq<string>, bLo: nat, bHi: nat)
    requires aLo <= aHi <= |a| && bLo <= bHi <= |b|
    decreases aHi - aLo, 1
  {
    if forall m :: !UniqueMatch(m, a, aLo, aHi, b, bLo, bHi) then
      forall ms :: CommonSubsequence(ms, a, aLo, aHi, b, bLo, bHi) ==> |ms| <= |kept|
    else
      exists chain :: chain != [] && choice(chain, aLo, aHi, bLo, bHi) && InGaps(choice, kept, chain, a, aLo, aHi, b, bLo, bHi)
  }

  /** `kept` is the chain with what is kept in its gaps, read off from the last anchor. */
  ghost predicate InGaps(
    choice: Choice, kept: seq<Match>, chain: seq<Match>, a: seq<string>, aLo: nat, aHi: nat, b: seq<string>, bLo: nat, bHi: nat)
    requires aLo <= aHi <= |a| && bLo <= bHi <= |b|
    decreases aHi - aLo, if chain == [] then 2 else 0
  {
    if chain == [] then Patient(choice, kept, a, aLo, aHi, b, bLo, bHi)
    else
      var n := |chain| - 1;
      var m := chain[n];
      && aLo <= m.a < aHi && bLo <= m.b < bHi
      && exists k :: 0 <= k < |kept| && kept[k] == m
          && Patient(choice, kept[k + 1..], a, m.a + 1, aHi, b, m.b + 1, bHi)
          && InGaps(choice, kept[..k], chain[..n], a, aLo, m.a, b, bLo, m.b)
  }

  /** What is kept up to the line after the last anchor passed. */
  ghost predicate PatientUpto(
    choice: Choice, kept: seq<Match>, passed: seq<Match>, a: seq<string>, aLo: nat, ai: nat, b: seq<string>, bLo: nat, bi: nat)
    requires aLo <= ai <= |a| && bLo <= bi <= |b|
  {
    if passed == [] then kept == [] && ai == aLo && bi == bLo
    else
      var n := |passed| - 1;
      var m := passed[n];
      && kept != [] && kept[|kept| - 1] == m && aLo <= m.a && bLo <= m.b && ai == m.a + 1 && bi == m.b + 1
      && InGaps(choice, kept[..|kept| - 1], passed[..n], a, aLo, m.a, b, bLo, m.b)
  }

  lemma PatientInGap(
    choice: Choice, kept: seq<Match>, gap: seq<Match>, passed: seq<Match>, a: seq<string>, aLo: nat, ai: nat, aHi: nat,
    b: seq<string>, bLo: nat, bi: nat, bHi: nat, all: seq<Match>)
    requires aLo <= ai <= aHi <= |a| && bLo <= bi <= bHi <= |b| && all == kept + gap
    requires PatientUpto(choice, kept, passed, a, aLo, ai, b, bLo, bi) && Patient(choice, gap, a, ai, aHi, b, bi, bHi)
    ensures InGaps(choice, all, passed, a, aLo, aHi, b, bLo, bHi)
  {
    if passed == [] {
      NilConcat(gap);
    } else {
      LastJoins(kept, gap);
    }
  }

  lemma PatientPast(
    choice: Choice, kept: seq<Match>, passed: seq<Match>, m: Match, a: seq<string>, aLo: nat, b: seq<string>, bLo: nat,
    next: seq<Match>, through: seq<Match>)
    requires aLo <= m.a < |a| && bLo <= m.b < |b| && next == kept + [m] && through == passed + [m]
    requires InGaps(choice, kept, passed, a, aLo, m.a, b, bLo, m.b)
    ensures PatientUpto(choice, next, through, a, aLo, m.a + 1, b, bLo, m.b + 1)
  {
    SnocParts(kept, m);
    SnocParts(passed, m);
  }

  /**
   * How much a script keeps. Without a line unique on both sides, as much as any script can; with one, a
   * longest chain of such lines, and so on in every gap of it; of equal parts everything; and something
   * wherever the parts share a line.
   */
  ghost predicate KeepsWell(ops: seq<DiffOp>, a: seq<string>, aLo: nat, aHi: nat, b: seq<string>, bLo: nat, bHi: nat)
    requires aLo <= aHi <= |a| && bLo <= bHi <= |b|
  {
    var kept := KeptPairs(ops, aLo, bLo);
    && CommonSubsequence(kept, a, aLo, aHi, b, bLo, bHi)
    && Patient(Longest(a, b), kept, a, aLo, aHi, b, bLo, bHi)
    && ((forall m :: !UniqueMatch(m, a, aLo, aHi, b, bLo, bHi)) ==>
          forall ms :: CommonSubsequence(ms, a, aLo, aHi, b, bLo, bHi) ==> |ms| <= |kept|)
    && ((exists m :: UniqueMatch(m, a, aLo, aHi, b, bLo, bHi)) ==>
          exists chain :: LongestChain(chain, a, aLo, aHi, b, bLo, bHi) && forall m :: m in chain ==> m in kept)
    && (SameParts(a, aLo, aHi, b, bLo, bHi) ==> |kept| == aHi - aLo)
    && (ShareALine(a, aLo, aHi, b, bLo, bHi) ==> kept != [])
  }

  /** The whole of two equal parts, as a common subsequence. */
  lemma DiagonalIsCommon(a: seq<string>, aLo: nat, aHi: nat, b: seq<string>, bLo: nat, bHi: nat)
    requires aLo <= aHi <= |a| && bLo <= bHi <= |b| && SameParts(a, aLo, aHi, b, bLo, bHi)
    ensures CommonSubsequence(Diagonal(aLo, bLo, aHi - aLo), a, aLo, aHi, b, bLo, bHi)
  {
    forall p | aLo <= p < aHi ensures a[p] == b[bLo + (p - aLo)] {
      SamePlace(a, aLo, aHi, b, bLo, bHi, p);
    }
  }

  /** A script that keeps as much as any keeps well, where no line is unique on both sides. */
  lemma MostKeepsWell(ops: seq<DiffOp>, a: seq<string>, aLo: nat, aHi: nat, b: seq<string>, bLo: nat, bHi: nat)
    requires aLo <= aHi <= |a| && bLo <= bHi <= |b| && Spells(ops, a[aLo..aHi], b[bLo..bHi])
    requires forall m :: !UniqueMatch(m, a, aLo, aHi, b, bLo, bHi)
    requires forall ms :: CommonSubsequence(ms, a, aLo, aHi, b, bLo, bHi) ==> |ms| <= |KeptPairs(ops, aLo, bLo)|
    ensures KeepsWell(ops, a, aLo, aHi, b, bLo, bHi)
    ensures forall choice: Choice :: Patient(choice, KeptPairs(ops, aLo, bLo), a, aLo, aHi, b, bLo, bHi)
  {
    KeptAreCommon(ops, a, aLo, aHi, b, bLo, bHi);
    CommonIsBounded(KeptPairs(ops, aLo, bLo), a, aLo, aHi, b, bLo, bHi);
    if SameParts(a, aLo, aHi, b, bLo, bHi) {
      DiagonalIsCommon(a, aLo, aHi, b, bLo, bHi);
    }
    if i, j :| aLo <= i < aHi && bLo <= j < bHi && a[i] == b[j] {
      assert CommonSubsequence([Match(i, j)], a, aLo, aHi, b, bLo, bHi);
    }
  }

  /** Nothing can be kept where one side is empty. */
  lemma NothingToKeep(a: seq<string>, aLo: nat, aHi: nat, b: seq<string>, bLo: nat, bHi: nat)
    requires aLo <= aHi <= |a| && bLo <= bHi <= |b| && (aLo == aHi || bLo == bHi)
    ensures forall ms :: CommonSubsequence(ms, a, aLo, aHi, b, bLo, bHi) ==> |ms| <= 0
    ensures forall m :: !UniqueMatch(m, a, aLo, aHi, b, bLo, bHi)
  {
    forall ms: seq<Match> | CommonSubsequence(ms, a, aLo, aHi, b, bLo, bHi) ensures |ms| <= 0 {
      CommonIsBounded(ms, a, aLo, aHi, b, bLo, bHi);
    }
  }

  // ---------------------------------------------------------------- the diff

  /** The recursion: anchors split the range, gaps recurse, anchorless ranges fall back to the LCS. */
  method DiffRecurse(a: seq<string>, aLo: nat, aHi: nat, b: seq<string>, bLo: nat, bHi: nat)
    returns (ops: seq<DiffOp>)
    requires aLo <= aHi <= |a| && bLo <= bHi <= |b|
    ensures Spells(ops, a[aLo..aHi], b[bLo..bHi]) && KeepsWell(ops, a, aLo, aHi, b, bLo, bHi)
    decreases aHi - aLo, 2
  {
    if aLo == aHi || bLo == bHi {
      ops := EmitRest(a, aLo, aHi, b, bLo, bHi);
      return;
    }
    ghost var choice := Longest(a, b);
    var anchors := PatienceAnchors(a, aLo, aHi, b, bLo, bHi);
    if |anchors| == 0 {
      var lcs := MyersLcs(a, aLo, aHi, b, bLo, bHi);
      ops := EmitFromLcs(a, aLo, aHi, b, bLo, bHi, lcs);
      MostKeepsWell(ops, a, aLo, aHi, b, bLo, bHi);
      return;
    }
    ops := DiffBetween(a, aLo, aHi, b, bLo, bHi, anchors, choice);
    KeptAreCommon(ops, a, aLo, aHi, b, bLo, bHi);
    assert anchors[0] in anchors;
  }

  /** The base cases: one side is empty, and the other is inserted or deleted as a whole. */
  method EmitRest(a: seq<string>, aLo: nat, aHi: nat, b: seq<string>, bLo: nat, bHi: nat) returns (ops: seq<DiffOp>)
    requires aLo <= aHi <= |a| && bLo <= bHi <= |b| && (aLo == aHi || bLo == bHi)
    ensures Spells(ops, a[aLo..aHi], b[bLo..bHi]) && KeepsWell(ops, a, aLo, aHi, b, bLo, bHi)
  {
    if aLo == aHi && bLo == bHi {
      ops := [];
    } else if aLo == aHi {
      ops := [DiffOp(Insert, b[bLo..bHi])];
      SpellsOne(ops[0]);
    } else {
      ops := [DiffOp(Delete, a[aLo..aHi])];
      SpellsOne(ops[0]);
    }
    NothingToKeep(a, aLo, aHi, b, bLo, bHi);
    MostKeepsWell(ops, a, aLo, aHi, b, bLo, bHi);
  }

  /** The loop over the anchors: recurse into each gap, then emit the anchor line. */
  method DiffBetween(
    a: seq<string>, aLo: nat, aHi: nat, b: seq<string>, bLo: nat, bHi: nat, anchors: seq<Match>,
    ghost choice: Choice)
    returns (ops: seq<DiffOp>)
    requires aLo <= aHi <= |a| && bLo <= bHi <= |b|
    requires anchors != [] && UniqueChain(anchors, a, aLo, aHi, b, bLo, bHi) && choice == Longest(a, b)
    ensures Spells(ops, a[aLo..aHi], b[bLo..bHi])
    ensures forall m :: m in anchors ==> m in KeptPairs(ops, aLo, bLo)
    ensures SameParts(a, aLo, aHi, b, bLo, bHi) ==> |KeptPairs(ops, aLo, bLo)| == aHi - aLo
    ensures InGaps(choice, KeptPairs(ops, aLo, bLo), anchors, a, aLo, aHi, b, bLo, bHi)
    decreases aHi - aLo, 1
  {
    ops := [];
    var prevAi: nat, prevBi: nat := aLo, bLo;
    for k := 0 to |anchors|
      invariant PastAnchors(ops, choice, a, aLo, aHi, b, bLo, bHi, anchors, Place(k, prevAi, prevBi))
    {
      ops := DiffGap(ops, choice, a, aLo, aHi, b, bLo, bHi, anchors, k, prevAi, prevBi);
      prevAi, prevBi := anchors[k].a + 1, anchors[k].b + 1;
    }
    var gap := DiffRecurse(a, prevAi, aHi, b, prevBi, bHi);
    SliceEnds(anchors, |anchors|);
    PassRest(ops, gap, choice, a, aLo, aHi, b, bLo, bHi, anchors, prevAi, prevBi);
    ops := ops + gap;
  }

  /** The loop after `passed` anchors, at line `ai` of the old part and `bi` of the new one. */
  datatype Place = Place(passed: nat, ai: nat, bi: nat)

  /** The script is exact so far, keeps the anchors passed, and keeps well in the gaps before them. */
  ghost predicate PastAnchors(
    ops: seq<DiffOp>, choice: Choice, a: seq<string>, aLo: nat, aHi: nat, b: seq<string>, bLo: nat, bHi: nat,
    anchors: seq<Match>, place: Place)
    requires aHi <= |a| && bHi <= |b|
  {
    match place
    case Place(k, ai, bi) =>
      && k <= |anchors| && aLo <= ai <= aHi && bLo <= bi <= bHi && (k > 0 ==> aLo < ai)
      && (forall l :: k <= l < |anchors| ==> ai <= anchors[l].a && bi <= anchors[l].b)
      && Spells(ops, a[aLo..ai], b[bLo..bi])
      && KeptSoFar(KeptPairs(ops, aLo, bLo), a, aLo, aHi, b, bLo, bHi, anchors[..k], ai, bi)
      && PatientUpto(choice, KeptPairs(ops, aLo, bLo), anchors[..k], a, aLo, ai, b, bLo, bi)
  }

  /** The gap before an anchor, and the anchor's line. */
  method DiffGap(
    ops0: seq<DiffOp>, ghost choice: Choice, a: seq<string>, aLo: nat, aHi: nat, b: seq<string>, bLo: nat, bHi: nat,
    anchors: seq<Match>, k: nat, prevAi: nat, prevBi: nat)
    returns (ops: seq<DiffOp>)
    requires aHi <= |a| && bHi <= |b| && k < |anchors| && UniqueChain(anchors, a, aLo, aHi, b, bLo, bHi)
    requires choice == Longest(a, b) && PastAnchors(ops0, choice, a, aLo, aHi, b, bLo, bHi, anchors, Place(k, prevAi, prevBi))
    ensures PastAnchors(ops, choice, a, aLo, aHi, b, bLo, bHi, anchors, Place(k + 1, anchors[k].a + 1, anchors[k].b + 1))
    decreases aHi - aLo, 0
  {
    var gap := DiffRecurse(a, prevAi, anchors[k].a, b, prevBi, anchors[k].b);
    ops := AppendAnchor(ops0, gap, choice, a, aLo, aHi, b, bLo, bHi, anchors, k, prevAi, prevBi);
  }

  method AppendAnchor(
    ops0: seq<DiffOp>, gap: seq<DiffOp>, ghost choice: Choice, a: seq<string>, aLo: nat, aHi: nat, b: seq<string>, bLo: nat,
    bHi: nat, anchors: seq<Match>, k: nat, prevAi: nat, prevBi: nat)
    returns (ops: seq<DiffOp>)
    requires aHi <= |a| && bHi <= |b| && k < |anchors| && UniqueChain(anchors, a, aLo, aHi, b, bLo, bHi)
    requires PastAnchors(ops0, choice, a, aLo, aHi, b, bLo, bHi, anchors, Place(k, prevAi, prevBi))
    requires Spells(gap, a[prevAi..anchors[k].a], b[prevBi..anchors[k].b])
    requires SameParts(a, prevAi, anchors[k].a, b, prevBi, anchors[k].b) ==> |KeptPairs(gap, prevAi, prevBi)| == anchors[k].a - prevAi
    requires Patient(choice, KeptPairs(gap, prevAi, prevBi), a, prevAi, anchors[k].a, b, prevBi, anchors[k].b)
    ensures PastAnchors(ops, choice, a, aLo, aHi, b, bLo, bHi, anchors, Place(k + 1, anchors[k].a + 1, anchors[k].b + 1))
  {
    AnchorsAhead(anchors, k, a, aLo, aHi, b, bLo, bHi);
    ops := AppendLine(ops0, gap, choice, a, aLo, aHi, b, bLo, bHi, anchors[..k], anchors[k], prevAi, prevBi, anchors[..k + 1]);
  }

  /** One anchor further: append the script of the gap before it, and the anchor's line. */
  method AppendLine(
    ops: seq<DiffOp>, gap: seq<DiffOp>, ghost choice: Choice, a: seq<string>, aLo: nat, ghost aHi: nat, b: seq<string>,
    bLo: nat, ghost bHi: nat, ghost passed: seq<Match>, m: Match, ghost prevAi: nat, ghost prevBi: nat, ghost through: seq<Match>)
    returns (next: seq<DiffOp>)
    requires aHi <= |a| && bHi <= |b| && aLo <= prevAi <= m.a && bLo <= prevBi <= m.b
    requires UniqueMatch(m, a, aLo, aHi, b, bLo, bHi) && through == passed + [m]
    requires Spells(ops, a[aLo..prevAi], b[bLo..prevBi]) && Spells(gap, a[prevAi..m.a], b[prevBi..m.b])
    requires KeptSoFar(KeptPairs(ops, aLo, bLo), a, aLo, aHi, b, bLo, bHi, passed, prevAi, prevBi)
    requires PatientUpto(choice, KeptPairs(ops, aLo, bLo), passed, a, aLo, prevAi, b, bLo, prevBi)
    requires SameParts(a, prevAi, m.a, b, prevBi, m.b) ==> |KeptPairs(gap, prevAi, prevBi)| == m.a - prevAi
    requires Patient(choice, KeptPairs(gap, prevAi, prevBi), a, prevAi, m.a, b, prevBi, m.b)
    ensures Spells(next, a[aLo..m.a + 1], b[bLo..m.b + 1])
    ensures KeptSoFar(KeptPairs(next, aLo, bLo), a, aLo, aHi, b, bLo, bHi, through, m.a + 1, m.b + 1)
    ensures PatientUpto(choice, KeptPairs(next, aLo, bLo), through, a, aLo, m.a + 1, b, bLo, m.b + 1)
  {
    next := ops + gap + [DiffOp(Equal, [a[m.a]])];
    ghost var kept, more := KeptPairs(ops, aLo, bLo), KeptPairs(gap, prevAi, prevBi);
    GapAndAnchor(ops, gap, a, aLo, prevAi, m.a, b, bLo, prevBi, m.b, next);
    KeptOneMore(kept, more, a, aLo, aHi, b, bLo, bHi, passed, m, prevAi, prevBi);
    PatientInGap(choice, kept, more, passed, a, aLo, prevAi, m.a, b, bLo, prevBi, m.b, kept + more);
    PatientPast(choice, kept + more, passed, m, a, aLo, b, bLo, KeptPairs(next, aLo, bLo), through);
  }

  lemma AnchorsAhead(
    anchors: seq<Match>, k: nat, a: seq<string>, aLo: nat, aHi: nat, b: seq<string>, bLo: nat, bHi: nat)
    requires aHi <= |a| && bHi <= |b| && k < |anchors| && UniqueChain(anchors, a, aLo, aHi, b, bLo, bHi)
    ensures UniqueMatch(anchors[k], a, aLo, aHi, b, bLo, bHi) && anchors[..k + 1] == anchors[..k] + [anchors[k]]
    ensures forall l :: k < l < |anchors| ==> anchors[k].a < anchors[l].a && anchors[k].b < anchors[l].b
  {
    assert anchors[k] in anchors;
    SliceSnoc(anchors, k);
  }

  lemma GapAndAnchor(
    ops: seq<DiffOp>, gap: seq<DiffOp>, a: seq<string>, aLo: nat, prevAi: nat, ai: nat, b: seq<string>, bLo: nat, prevBi: nat, bi: nat,
    next: seq<DiffOp>)
    requires aLo <= prevAi <= ai < |a| && bLo <= prevBi <= bi < |b| && a[ai] == b[bi]
    requires Spells(ops, a[aLo..prevAi], b[bLo..prevBi]) && Spells(gap, a[prevAi..ai], b[prevBi..bi])
    requires next == ops + gap + [DiffOp(Equal, [a[ai]])]
    ensures Spells(next, a[aLo..ai + 1], b[bLo..bi + 1])
    ensures KeptPairs(next, aLo, bLo) == KeptPairs(ops, aLo, bLo) + KeptPairs(gap, prevAi, prevBi) + [Match(ai, bi)]
  {
    GapSpells(a, prevAi, ai, b, prevBi, bi, ops, gap, aLo, bLo);
    EqualSpells(a, aLo, ai, b, bLo, bi, ops + gap);
  }

  /** The gap after the last anchor. */
  lemma PassRest(
    ops: seq<DiffOp>, gap: seq<DiffOp>, choice: Choice, a: seq<string>, aLo: nat, aHi: nat, b: seq<string>, bLo: nat, bHi: nat,
    anchors: seq<Match>, prevAi: nat, prevBi: nat)
    requires aLo <= prevAi <= aHi <= |a| && bLo <= prevBi <= bHi <= |b|
    requires Spells(ops, a[aLo..prevAi], b[bLo..prevBi]) && Spells(gap, a[prevAi..aHi], b[prevBi..bHi])
    requires KeptSoFar(KeptPairs(ops, aLo, bLo), a, aLo, aHi, b, bLo, bHi, anchors, prevAi, prevBi)
    requires SameParts(a, prevAi, aHi, b, prevBi, bHi) ==> |KeptPairs(gap, prevAi, prevBi)| == aHi - prevAi
    requires PatientUpto(choice, KeptPairs(ops, aLo, bLo), anchors, a, aLo, prevAi, b, bLo, prevBi)
    requires Patient(choice, KeptPairs(gap, prevAi, prevBi), a, prevAi, aHi, b, prevBi, bHi)
    ensures InGaps(choice, KeptPairs(ops + gap, aLo, bLo), anchors, a, aLo, aHi, b, bLo, bHi)
    ensures Spells(ops + gap, a[aLo..aHi], b[bLo..bHi])
    ensures forall m :: m in anchors ==> m in KeptPairs(ops + gap, aLo, bLo)
    ensures SameParts(a, aLo, aHi, b, bLo, bHi) ==> |KeptPairs(ops + gap, aLo, bLo)| == aHi - aLo
  {
    GapSpells(a, prevAi, aHi, b, prevBi, bHi, ops, gap, aLo, bLo);
    PatientInGap(
      choice, KeptPairs(ops, aLo, bLo), KeptPairs(gap, prevAi, prevBi), anchors, a, aLo, prevAi, aHi, b, bLo, prevBi, bHi,
      KeptPairs(ops + gap, aLo, bLo));
    KeptInAll(KeptPairs(ops, aLo, bLo), KeptPairs(gap, prevAi, prevBi), a, aLo, aHi, b, bLo, bHi, anchors, prevAi, prevBi);
  }

  /** Up to here the script has kept the anchors passed, and of equal parts everything. */
  ghost predicate KeptSoFar(
    kept: seq<Match>, a: seq<string>, aLo: nat, aHi: nat, b: seq<string>, bLo: nat, bHi: nat, passed: seq<Match>, ai: nat, bi: nat)
    requires aHi <= |a| && bHi <= |b|
  {
    && (forall m :: m in passed ==> m in kept)
    && (SameParts(a, aLo, aHi, b, bLo, bHi) ==> ai - aLo == bi - bLo && |kept| == ai - aLo)
  }

  lemma PartsOfSame(a: seq<string>, aLo: nat, aHi: nat, b: seq<string>, bLo: nat, bHi: nat, i: nat, j: nat, n: nat)
    requires aHi <= |a| && bHi <= |b| && SameParts(a, aLo, aHi, b, bLo, bHi)
    requires aLo <= i && i + n <= aHi && bLo <= j && i - aLo == j - bLo
    ensures j + n <= bHi && SameParts(a, i, i + n, b, j, j + n)
  {
    SliceOfSlice(a, aLo, aHi, i - aLo, n);
    SliceOfSlice(b, bLo, bHi, j - bLo, n);
  }

  lemma KeptOneMore(
    kept: seq<Match>, gap: seq<Match>, a: seq<string>, aLo: nat, aHi: nat, b: seq<string>, bLo: nat, bHi: nat,
    passed: seq<Match>, m: Match, prevAi: nat, prevBi: nat)
    requires aHi <= |a| && bHi <= |b| && UniqueMatch(m, a, aLo, aHi, b, bLo, bHi)
    requires KeptSoFar(kept, a, aLo, aHi, b, bLo, bHi, passed, prevAi, prevBi)
    requires aLo <= prevAi <= m.a && bLo <= prevBi <= m.b
    requires SameParts(a, prevAi, m.a, b, prevBi, m.b) ==> |gap| == m.a - prevAi
    ensures KeptSoFar(kept + gap + [m], a, aLo, aHi, b, bLo, bHi, passed + [m], m.a + 1, m.b + 1)
  {
    if SameParts(a, aLo, aHi, b, bLo, bHi) {
      UniqueIsDiagonal(m, a, aLo, aHi, b, bLo, bHi);
      PartsOfSame(a, aLo, aHi, b, bLo, bHi, prevAi, prevBi, m.a - prevAi);
    }
    PassOne(kept, gap, passed, m);
  }

  lemma PassOne(kept: seq<Match>, gap: seq<Match>, passed: seq<Match>, m: Match)
    requires forall x :: x in passed ==> x in kept
    ensures forall x :: x in passed + [m] ==> x in kept + gap + [m]
  {
  }

  lemma KeptInAll(
    kept: seq<Match>, gap: seq<Match>, a: seq<string>, aLo: nat, aHi: nat, b: seq<string>, bLo: nat, bHi: nat,
    anchors: seq<Match>, prevAi: nat, prevBi: nat)
    requires aLo <= prevAi <= aHi <= |a| && bLo <= prevBi <= bHi <= |b|
    requires KeptSoFar(kept, a, aLo, aHi, b, bLo, bHi, anchors, prevAi, prevBi)
    requires SameParts(a, prevAi, aHi, b, prevBi, bHi) ==> |gap| == aHi - prevAi
    ensures forall m :: m in anchors ==> m in kept + gap
    ensures SameParts(a, aLo, aHi, b, bLo, bHi) ==> |kept + gap| == aHi - aLo
  {
    if SameParts(a, aLo, aHi, b, bLo, bHi) {
      PartsOfSame(a, aLo, aHi, b, bLo, bHi, prevAi, prevBi, aHi - prevAi);
    }
  }

  /** No empty operation and no two neighbours of one kind. */
  ghost predicate Coalesced(ops: seq<DiffOp>) {
    && (forall k :: 0 <= k < |ops| ==> ops[k].lines != [])
    && (forall k :: 0 <= k < |ops| - 1 ==> ops[k].kind != ops[k + 1].kind)
  }

  /** One step of the coalescing loop: drop an empty operation, grow the last one, or push. */
  function CoalesceStep(result: seq<DiffOp>, op: DiffOp): seq<DiffOp> {
    var n := |result|;
    if op.lines == [] then result
    else if n > 0 && result[n - 1].kind == op.kind then
      result[..n - 1] + [DiffOp(op.kind, result[n - 1].lines + op.lines)]
    else result + [op]
  }

  lemma CoalesceStepSpells(result: seq<DiffOp>, op: DiffOp)
    ensures Source(CoalesceStep(result, op)) == Source(result + [op])
    ensures Target(CoalesceStep(result, op)) == Target(result + [op])
  {
    SpellsAppend(result, [op]);
    SpellsOne(op);
    var n := |result|;
    if op.lines != [] && n > 0 && result[n - 1].kind == op.kind {
      var front, last := result[..n - 1], DiffOp(op.kind, result[n - 1].lines + op.lines);
      assert result == front + [result[n - 1]];
      SpellsAppend(front, [result[n - 1]]);
      SpellsAppend(front, [last]);
      SpellsOne(result[n - 1]);
      SpellsOne(last);
      ConcatAssociative(Source(front), result[n - 1].lines, op.lines);
      ConcatAssociative(Target(front), result[n - 1].lines, op.lines);
    }
  }

  /** Nor does it change what the script keeps. */
  lemma CoalesceStepPairs(result: seq<DiffOp>, op: DiffOp)
    ensures KeptPairs(CoalesceStep(result, op), 0, 0) == KeptPairs(result + [op], 0, 0)
  {
    var n := |result|;
    KeptAppend(result, [op], 0, 0);
    var i, j := |Source(result)|, |Target(result)|;
    KeptOne(op, i, j);
    if op.lines == [] {
      assert Diagonal(i, j, 0) == [];
      NilConcat(KeptPairs(result, 0, 0));
    } else if n > 0 && result[n - 1].kind == op.kind {
      var front, last := result[..n - 1], result[n - 1];
      LastParts(result);
      GrownKeeps(front, last, op);
    }
  }

  lemma GrownKeeps(front: seq<DiffOp>, last: DiffOp, op: DiffOp)
    requires last.kind == op.kind
    ensures KeptPairs(front + [DiffOp(op.kind, last.lines + op.lines)], 0, 0) == KeptPairs(front + [last] + [op], 0, 0)
  {
    var i, j := |Source(front)|, |Target(front)|;
    var i', j' := i + |Source([last])|, j + |Target([last])|;
    var grown := DiffOp(op.kind, last.lines + op.lines);
    SpellsAppend(front, [last]);
    KeptSnoc(front, grown, i, j);
    KeptSnoc(front, last, i, j);
    KeptSnoc(front + [last], op, i', j');
    GrownIsBoth(last, op, i, j);
    ConcatAssociative(KeptPairs(front, 0, 0), KeptPairs([last], i, j), KeptPairs([op], i', j'));
  }

  lemma KeptSnoc(front: seq<DiffOp>, op: DiffOp, i: nat, j: nat)
    requires i == |Source(front)| && j == |Target(front)|
    ensures KeptPairs(front + [op], 0, 0) == KeptPairs(front, 0, 0) + KeptPairs([op], i, j)
  {
    KeptAppend(front, [op], 0, 0);
  }

  lemma GrownIsBoth(last: DiffOp, op: DiffOp, i: nat, j: nat)
    requires last.kind == op.kind
    ensures KeptPairs([DiffOp(op.kind, last.lines + op.lines)], i, j)
      == KeptPairs([last], i, j) + KeptPairs([op], i + |Source([last])|, j + |Target([last])|)
  {
    SpellsOne(last);
    KeptOne(DiffOp(op.kind, last.lines + op.lines), i, j);
    KeptOne(last, i, j);
    KeptOne(op, i + |Source([last])|, j + |Target([last])|);
    if op.kind == Equal {
      DiagonalJoins(i, j, |last.lines|, |op.lines|);
    }
  }

  lemma DiagonalJoins(i: nat, j: nat, m: nat, n: nat)
    ensures Diagonal(i, j, m + n) == Diagonal(i, j, m) + Diagonal(i + m, j + m, n)
  {
  }

  lemma CoalesceStepKeeps(result: seq<DiffOp>, op: DiffOp)
    requires Coalesced(result)
    ensures Coalesced(CoalesceStep(result, op))
  {
  }

  lemma CoalesceRound(result: seq<DiffOp>, ops: seq<DiffOp>, k: nat)
    requires k < |ops| && Source(result) == Source(ops[..k]) && Target(result) == Target(ops[..k])
    requires KeptPairs(result, 0, 0) == KeptPairs(ops[..k], 0, 0)
    ensures Source(CoalesceStep(result, ops[k])) == Source(ops[..k + 1])
    ensures Target(CoalesceStep(result, ops[k])) == Target(ops[..k + 1])
    ensures KeptPairs(CoalesceStep(result, ops[k]), 0, 0) == KeptPairs(ops[..k + 1], 0, 0)
  {
    CoalesceStepSpells(result, ops[k]);
    CoalesceStepPairs(result, ops[k]);
    KeptAppend(result, [ops[k]], 0, 0);
    KeptAppend(ops[..k], [ops[k]], 0, 0);
    SpellsAppend(result, [ops[k]]);
    SpellsAppend(ops[..k], [ops[k]]);
    assert ops[..k + 1] == ops[..k] + [ops[k]];
  }

  method CoalesceOps(ops: seq<DiffOp>) returns (result: seq<DiffOp>)
    ensures Coalesced(result)
    ensures Source(result) == Source(ops) && Target(result) == Target(ops)
    ensures KeptPairs(result, 0, 0) == KeptPairs(ops, 0, 0)
  {
    result := [];
    for k := 0 to |ops|
      invariant Coalesced(result)
      invariant KeptPairs(result, 0, 0) == KeptPairs(ops[..k], 0, 0)
      invariant Source(result) == Source(ops[..k])
      invariant Target(result) == Target(ops[..k])
    {
      CoalesceRound(result, ops, k);
      CoalesceStepKeeps(result, ops[k]);
      result := CoalesceStep(result, ops[k]);
    }
    assert ops[..|ops|] == ops;
  }

  /** A script that keeps all of a text deletes nothing. */
  lemma {:induction false} KeptAtMost(ops: seq<DiffOp>, i: nat, j: nat)
    ensures |KeptPairs(ops, i, j)| <= |Source(ops)| && |KeptPairs(ops, i, j)| <= |Target(ops)|
    ensures |KeptPairs(ops, i, j)| == |Source(ops)| == |Target(ops)| ==>
      forall k :: 0 <= k < |ops| ==> ops[k].kind == Equal || ops[k].lines == []
    decreases |ops|
  {
    if ops != [] {
      var op, rest := ops[0], ops[1..];
      ConsParts(op, rest);
      SpellsAppend([op], rest);
      SpellsOne(op);
      assert ops == [op] + rest;
      PairsCons(op, rest, i, j);
      KeptAtMost(rest, i + |Source([op])|, j + |Target([op])|);
      assert forall k :: 0 < k < |ops| ==> ops[k] == rest[k - 1];
    }
  }

  /** Two equal texts: the whole text is kept, in one operation. */
  lemma AllInOne(ops: seq<DiffOp>, a: seq<string>)
    requires Spells(ops, a, a) && Coalesced(ops) && |KeptPairs(ops, 0, 0)| == |a| && a != []
    ensures ops == [DiffOp(Equal, a)]
  {
    KeptAtMost(ops, 0, 0);
    assert ops != [] && ops[0].kind == Equal;
    assert ops == [ops[0]];
    SpellsOne(ops[0]);
  }

  /**
   * The diff is an exact, coalesced edit script from `a` to `b`, for every two texts, and it keeps well:
   * equal texts are kept whole, and texts that share a line keep one.
   */
  method DiffLines(a: seq<string>, b: seq<string>) returns (ops: seq<DiffOp>)
    ensures Spells(ops, a, b)
    ensures Coalesced(ops)
    ensures KeepsWell(ops, a, 0, |a|, b, 0, |b|)
    ensures a == b && a != [] ==> ops == [DiffOp(Equal, a)]
    ensures (exists line :: line in a && line in b) ==> exists k :: 0 <= k < |ops| && ops[k].kind == Equal
  {
    var raw := DiffRecurse(a, 0, |a|, b, 0, |b|);
    SliceEnds(a, 0);
    SliceEnds(b, 0);
    ops := CoalesceOps(raw);
    if a == b && a != [] {
      AllInOne(ops, a);
    }
    SharedIsKept(ops, a, b);
  }

  lemma SharedIsKept(ops: seq<DiffOp>, a: seq<string>, b: seq<string>)
    requires KeepsWell(ops, a, 0, |a|, b, 0, |b|)
    ensures (exists line :: line in a && line in b) ==> exists k :: 0 <= k < |ops| && ops[k].kind == Equal
  {
    if line :| line in a && line in b {
      var i: nat :| i < |a| && a[i] == line;
      var j: nat :| j < |b| && b[j] == line;
      assert ShareALine(a, 0, |a|, b, 0, |b|);
      KeptMeansEqual(ops, 0, 0);
    }
  }

  lemma {:induction false} KeptMeansEqual(ops: seq<DiffOp>, i: nat, j: nat)
    requires KeptPairs(ops, i, j) != []
    ensures exists k :: 0 <= k < |ops| && ops[k].kind == Equal
    decreases |ops|
  {
    if ops[0].kind != Equal {
      var n := |ops[0].lines|;
      KeptMeansEqual(ops[1..], if ops[0].kind == Delete then i + n else i, if ops[0].kind == Insert then j + n else j);
      var k :| 0 <= k < |ops[1..]| && ops[1..][k].kind == Equal;
      assert ops[k + 1].kind == Equal;
    }
  }
}
