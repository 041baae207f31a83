/** Layer 2 of the merge engine: hunks against the ancestor and the two-cursor three-way merge. */
module ThreeWay {
  import opened Base
  import opened Diff
  import Text

  /** Ancestor lines `[ancStart, ancEnd)` are replaced by `lines`. */
  datatype Hunk = Hunk(ancStart: nat, ancEnd: nat, lines: seq<string>)

  datatype ConflictChunk = ConflictChunk(
    startLine: int, endLine: int, ancestor: seq<string>, local: seq<string>, remote: seq<string>)

  datatype MergeResult = MergeResult(merged: seq<string>, conflicts: seq<ConflictChunk>, hasConflicts: bool)

  // ------------------------------------------------------------------- hunks

  function Flush(cur: Option<Hunk>): seq<Hunk> {
    if cur.Some? then [cur.value] else []
  }

  function Open(cur: Option<Hunk>, ai: nat): Hunk {
    if cur.Some? then cur.value else Hunk(ai, ai, [])
  }

  /** The hunks still to come, given the ancestor position and the hunk being collected. */
  function HunksFrom(diff: seq<DiffOp>, ai: nat, cur: Option<Hunk>): seq<Hunk> {
    if diff == [] then Flush(cur)
    else
      var n := |diff[0].lines|;
      match diff[0].kind
      case Equal => Flush(cur) + HunksFrom(diff[1..], ai + n, None)
      case Delete => HunksFrom(diff[1..], ai + n, Some(Open(cur, ai).(ancEnd := ai + n)))
      case Insert =>
        var h := Open(cur, ai);
        HunksFrom(diff[1..], ai, Some(h.(lines := h.lines + diff[0].lines)))
  }

  method ToHunks(diff: seq<DiffOp>) returns (hunks: seq<Hunk>)
    ensures hunks == HunksFrom(diff, 0, None)
  {
    hunks := [];
    var ai: nat := 0;
    var cur: Option<Hunk> := None;
    for k := 0 to |diff|
      invariant hunks + HunksFrom(diff[k..], ai, cur) == HunksFrom(diff, 0, None)
    {
      var op := diff[k];
      assert diff[k..][1..] == diff[k + 1..];
      match op.kind
      case Equal =>
        ConcatAssociative(hunks, Flush(cur), HunksFrom(diff[k + 1..], ai + |op.lines|, None));
        if cur.Some? {
          hunks := hunks + [cur.value];
          cur := None;
        }
        ai := ai + |op.lines|;
      case Delete =>
        cur := Some(Open(cur, ai));
        ai := ai + |op.lines|;
        cur := Some(cur.value.(ancEnd := ai));
      case Insert =>
        cur := Some(Open(cur, ai));
        cur := Some(cur.value.(lines := cur.value.lines + op.lines));
    }
    hunks := hunks + Flush(cur);
  }

  /** Hunks in ancestor order, none reaching back over the previous one. */
  ghost predicate Ordered(hunks: seq<Hunk>, from: nat, n: nat) {
    && from <= n
    && (hunks != [] ==>
          from <= hunks[0].ancStart <= hunks[0].ancEnd <= n && Ordered(hunks[1..], hunks[0].ancEnd, n))
  }

  /** At least one untouched ancestor line between neighbours. */
  ghost predicate Separated(hunks: seq<Hunk>) {
    forall k :: 0 <= k < |hunks| - 1 ==> hunks[k].ancEnd < hunks[k + 1].ancStart
  }

  /** The text that replacing every hunk's range makes of `anc[from..]`. */
  ghost function Apply(anc: seq<string>, from: nat, hunks: seq<Hunk>): seq<string>
    requires Ordered(hunks, from, |anc|)
    decreases |hunks|
  {
    if hunks == [] then anc[from..]
    else anc[from..hunks[0].ancStart] + hunks[0].lines + Apply(anc, hunks[0].ancEnd, hunks[1..])
  }

  ghost predicate Collecting(cur: Option<Hunk>, ai: nat) {
    cur.Some? ==> cur.value.ancStart <= cur.value.ancEnd == ai
  }

  lemma {:induction false} HunksOrdered(anc: seq<string>, diff: seq<DiffOp>, ai: nat, cur: Option<Hunk>)
    requires ai <= |anc| && Source(diff) == anc[ai..] && Collecting(cur, ai)
    ensures Ordered(HunksFrom(diff, ai, cur), Open(cur, ai).ancStart, |anc|)
    ensures cur.None? && diff != [] && diff[0].kind == Equal && diff[0].lines != [] && HunksFrom(diff, ai, cur) != []
            ==> HunksFrom(diff, ai, cur)[0].ancStart > ai
  {
    if diff != [] {
      var n := |diff[0].lines|;
      match diff[0].kind
      case Equal =>
        assert anc[ai..][n..] == anc[ai + n..] by { SourceTail(anc, diff, ai); }
        HunksOrdered(anc, diff[1..], ai + n, None);
        var rest := HunksFrom(diff[1..], ai + n, None);
        if cur.Some? {
          assert ([cur.value] + rest)[1..] == rest;
          OrderedFrom(rest, ai, ai + n, |anc|);
        } else {
          assert [] + rest == rest;
          OrderedFrom(rest, ai, ai + n, |anc|);
        }
      case Delete =>
        SourceTail(anc, diff, ai);
        HunksOrdered(anc, diff[1..], ai + n, Some(Open(cur, ai).(ancEnd := ai + n)));
      case Insert =>
        var h := Open(cur, ai);
        HunksOrdered(anc, diff[1..], ai, Some(h.(lines := h.lines + diff[0].lines)));
    }
  }

  lemma SourceTail(anc: seq<string>, diff: seq<DiffOp>, ai: nat)
    requires ai <= |anc| && diff != [] && Source(diff) == anc[ai..] && diff[0].kind != Insert
    ensures ai + |diff[0].lines| <= |anc|
    ensures diff[0].lines == anc[ai..ai + |diff[0].lines|]
    ensures Source(diff[1..]) == anc[ai + |diff[0].lines|..]
  {
    var n := |diff[0].lines|;
    assert |anc[ai..]| == n + |Source(diff[1..])|;
    assert anc[ai..][..n] == diff[0].lines && anc[ai..][n..] == Source(diff[1..]);
  }

  lemma OrderedFrom(hunks: seq<Hunk>, lo: nat, from: nat, n: nat)
    requires lo <= from && Ordered(hunks, from, n)
    ensures Ordered(hunks, lo, n)
  {
  }

  lemma {:induction false} HunksSeparated(anc: seq<string>, diff: seq<DiffOp>, ai: nat, cur: Option<Hunk>)
    requires ai <= |anc| && Source(diff) == anc[ai..] && Collecting(cur, ai)
    requires forall k :: 0 <= k < |diff| ==> diff[k].lines != []
    ensures Separated(HunksFrom(diff, ai, cur))
  {
    if diff != [] {
      var n := |diff[0].lines|;
      match diff[0].kind
      case Equal =>
        SourceTail(anc, diff, ai);
        HunksSeparated(anc, diff[1..], ai + n, None);
        HunksOrdered(anc, diff[1..], ai + n, None);
      case Delete =>
        SourceTail(anc, diff, ai);
        HunksSeparated(anc, diff[1..], ai + n, Some(Open(cur, ai).(ancEnd := ai + n)));
      case Insert =>
        var h := Open(cur, ai);
        HunksSeparated(anc, diff[1..], ai, Some(h.(lines := h.lines + diff[0].lines)));
    }
  }

  /** Closing the open hunk at a kept run of lines. */
  lemma ApplyFlush(anc: seq<string>, ai: nat, mid: nat, cur: Option<Hunk>, rest: seq<Hunk>)
    requires ai <= mid <= |anc| && Collecting(cur, ai) && Ordered(rest, mid, |anc|)
    ensures Ordered(Flush(cur) + rest, Open(cur, ai).ancStart, |anc|)
    ensures Apply(anc, Open(cur, ai).ancStart, Flush(cur) + rest)
         == Open(cur, ai).lines + (anc[ai..mid] + Apply(anc, mid, rest))
  {
    ApplyKept(anc, ai, mid, rest);
    if cur.Some? {
      ApplyOne(anc, cur.value, rest);
    } else {
      assert [] + rest == rest;
      var all := anc[ai..mid] + Apply(anc, mid, rest);
      assert [] + all == all;
    }
  }

  /** What `HunksFrom` must achieve: the collected lines followed by everything the script writes. */
  ghost predicate Rebuilds(anc: seq<string>, diff: seq<DiffOp>, ai: nat, cur: Option<Hunk>) {
    var start, hunks := Open(cur, ai).ancStart, HunksFrom(diff, ai, cur);
    Ordered(hunks, start, |anc|) && Apply(anc, start, hunks) == Open(cur, ai).lines + Target(diff)
  }

  lemma RebuildsEqual(anc: seq<string>, diff: seq<DiffOp>, ai: nat, cur: Option<Hunk>, mid: nat)
    requires diff != [] && diff[0].kind == Equal && Collecting(cur, ai)
    requires mid == ai + |diff[0].lines| <= |anc| && diff[0].lines == anc[ai..mid]
    requires Rebuilds(anc, diff[1..], mid, None)
    ensures Rebuilds(anc, diff, ai, cur)
  {
    var rest := HunksFrom(diff[1..], mid, None);
    assert [] + Target(diff[1..]) == Target(diff[1..]);
    assert Apply(anc, mid, rest) == Target(diff[1..]);
    ApplyFlush(anc, ai, mid, cur, rest);
  }

  lemma RebuildsDelete(anc: seq<string>, diff: seq<DiffOp>, ai: nat, cur: Option<Hunk>)
    requires diff != [] && diff[0].kind == Delete
    requires Rebuilds(anc, diff[1..], ai + |diff[0].lines|, Some(Open(cur, ai).(ancEnd := ai + |diff[0].lines|)))
    ensures Rebuilds(anc, diff, ai, cur)
  {
    assert [] + Target(diff[1..]) == Target(diff[1..]);
  }

  lemma RebuildsInsert(anc: seq<string>, diff: seq<DiffOp>, ai: nat, cur: Option<Hunk>)
    requires diff != [] && diff[0].kind == Insert
    requires var h := Open(cur, ai); Rebuilds(anc, diff[1..], ai, Some(h.(lines := h.lines + diff[0].lines)))
    ensures Rebuilds(anc, diff, ai, cur)
  {
    ConcatAssociative(Open(cur, ai).lines, diff[0].lines, Target(diff[1..]));
  }

  lemma {:induction false} HunksApply(anc: seq<string>, diff: seq<DiffOp>, ai: nat, cur: Option<Hunk>)
    requires ai <= |anc| && Source(diff) == anc[ai..] && Collecting(cur, ai)
    ensures Rebuilds(anc, diff, ai, cur)
  {
    if diff == [] {
      if cur.Some? {
        ApplyOne(anc, cur.value, []);
      }
    } else if diff[0].kind == Equal {
      SourceTail(anc, diff, ai);
      HunksApply(anc, diff[1..], ai + |diff[0].lines|, None);
      RebuildsEqual(anc, diff, ai, cur, ai + |diff[0].lines|);
    } else if diff[0].kind == Delete {
      SourceTail(anc, diff, ai);
      var mid := ai + |diff[0].lines|;
      HunksApply(anc, diff[1..], mid, Some(Open(cur, ai).(ancEnd := mid)));
      RebuildsDelete(anc, diff, ai, cur);
    } else {
      var h := Open(cur, ai);
      assert [] + Source(diff[1..]) == Source(diff[1..]);
      HunksApply(anc, diff[1..], ai, Some(h.(lines := h.lines + diff[0].lines)));
      RebuildsInsert(anc, diff, ai, cur);
    }
  }

  /** Kept lines in front of the first hunk are copied through. */
  lemma ApplyKept(anc: seq<string>, from: nat, mid: nat, hunks: seq<Hunk>)
    requires from <= mid <= |anc| && Ordered(hunks, mid, |anc|)
    ensures Ordered(hunks, from, |anc|)
    ensures Apply(anc, from, hunks) == anc[from..mid] + Apply(anc, mid, hunks)
  {
    OrderedFrom(hunks, from, mid, |anc|);
    if hunks == [] {
      assert anc[from..] == anc[from..mid] + anc[mid..];
    } else {
      var h := hunks[0];
      assert anc[from..h.ancStart] == anc[from..mid] + anc[mid..h.ancStart];
      ConcatAssociative(anc[from..mid], anc[mid..h.ancStart], h.lines);
      ConcatAssociative(anc[from..mid], anc[mid..h.ancStart] + h.lines, Apply(anc, h.ancEnd, hunks[1..]));
    }
  }

  lemma ApplyOne(anc: seq<string>, h: Hunk, rest: seq<Hunk>)
    requires h.ancStart <= h.ancEnd <= |anc| && Ordered(rest, h.ancEnd, |anc|)
    ensures Ordered([h] + rest, h.ancStart, |anc|)
    ensures Apply(anc, h.ancStart, [h] + rest) == h.lines + Apply(anc, h.ancEnd, rest)
  {
    assert ([h] + rest)[1..] == rest;
    assert anc[h.ancStart..h.ancStart] + h.lines == h.lines;
  }

  /**
   * Decomposing an exact, coalesced edit script gives strictly separated hunks inside the
   * ancestor, and applying them to the ancestor gives the variant.
   */
  lemma HunksMeanVariant(anc: seq<string>, variant: seq<string>, diff: seq<DiffOp>)
    requires Spells(diff, anc, variant) && Coalesced(diff)
    ensures var hunks := HunksFrom(diff, 0, None);
      Ordered(hunks, 0, |anc|) && Separated(hunks) && Apply(anc, 0, hunks) == variant
  {
    assert anc[0..] == anc && [] + variant == variant;
    HunksApply(anc, diff, 0, None);
    HunksSeparated(anc, diff, 0, None);
  }

  // --------------------------------------------------------- two-cursor merge

  predicate IsInsert(h: Hunk) {
    h.ancStart == h.ancEnd
  }

  predicate HunksInteract(a: Hunk, b: Hunk) {
    || Max(a.ancStart, b.ancStart) < Min(a.ancEnd, b.ancEnd)
    || (IsInsert(a) && IsInsert(b) && a.ancStart == b.ancStart)
    || (IsInsert(a) && !IsInsert(b) && b.ancStart < a.ancStart < b.ancEnd)
    || (IsInsert(b) && !IsInsert(a) && a.ancStart < b.ancStart < a.ancEnd)
  }

  /** What one round of the merge loop contributes. */
  datatype Piece =
    | Keep(from: nat, to: nat)               // untouched ancestor lines
    | TakeLocal(l: Hunk)                     // a one-sided local change
    | TakeRemote(r: Hunk)                    // a one-sided remote change
    | Agreed(l: Hunk, r: Hunk)               // both sides made the same change
    | Union(l: Hunk, r: Hunk)                // different insertions at one gap: local first
    | Clash(l: Hunk, r: Hunk)                // overlapping, different: a conflict

  function Joint(l: Hunk, r: Hunk): Piece {
    if l.lines == r.lines then Agreed(l, r)
    else if IsInsert(l) && IsInsert(r) && l.ancStart == r.ancStart then Union(l, r)
    else Clash(l, r)
  }

  /** Which side's hunk comes first when the two do not interact. */
  predicate LocalFirst(local: seq<Hunk>, remote: seq<Hunk>)
    requires local != [] || remote != []
  {
    if remote == [] then true
    else if local == [] then false
    else if local[0].ancStart != remote[0].ancStart then local[0].ancStart < remote[0].ancStart
    else if IsInsert(local[0]) != IsInsert(remote[0]) then IsInsert(local[0])
    else true
  }

  function NextChange(local: seq<Hunk>, remote: seq<Hunk>): nat
    requires local != [] || remote != []
  {
    if remote == [] then local[0].ancStart
    else if local == [] then remote[0].ancStart
    else Min(local[0].ancStart, remote[0].ancStart)
  }

  function KeepTo(pos: nat, next: nat): seq<Piece> {
    if pos < next then [Keep(pos, next)] else []
  }

  predicate Interacting(local: seq<Hunk>, remote: seq<Hunk>) {
    local != [] && remote != [] && HunksInteract(local[0], remote[0])
  }

  /** The ancestor position after an interacting pair; a pair of insertions at one gap leaves it. */
  function JointEnd(pos: nat, l: Hunk, r: Hunk): nat {
    if IsInsert(l) && IsInsert(r) && l.ancStart == r.ancStart then pos
    else Max(pos, Max(l.ancEnd, r.ancEnd))
  }

  /** The pieces the merge loop emits from ancestor position `pos` on. */
  function Weave(local: seq<Hunk>, remote: seq<Hunk>, pos: nat, n: nat): seq<Piece>
    decreases |local| + |remote|
  {
    if local == [] && remote == [] then KeepTo(pos, n)
    else
      var next := NextChange(local, remote);
      var at := Max(pos, next);
      KeepTo(pos, next) +
      if Interacting(local, remote) then
        [Joint(local[0], remote[0])] + Weave(local[1..], remote[1..], JointEnd(at, local[0], remote[0]), n)
      else if LocalFirst(local, remote) then
        [TakeLocal(local[0])] + Weave(local[1..], remote, Max(at, local[0].ancEnd), n)
      else
        [TakeRemote(remote[0])] + Weave(local, remote[1..], Max(at, remote[0].ancEnd), n)
  }

  /** `anc.slice(from, to)`. */
  function Slice(anc: seq<string>, from: nat, to: nat): seq<string> {
    var hi := Min(to, |anc|);
    if from <= hi then anc[from..hi] else []
  }

  function Emit(anc: seq<string>, piece: Piece): seq<string> {
    match piece
    case Keep(from, to) => Slice(anc, from, to)
    case TakeLocal(l) => l.lines
    case TakeRemote(r) => r.lines
    case Agreed(l, r) => l.lines
    case Union(l, r) => l.lines + r.lines
    case Clash(l, r) => l.lines
  }

  function Merged(anc: seq<string>, pieces: seq<Piece>): seq<string> {
    if pieces == [] then [] else Emit(anc, pieces[0]) + Merged(anc, pieces[1..])
  }

  function ChunkOf(anc: seq<string>, l: Hunk, r: Hunk, start: nat): ConflictChunk {
    ConflictChunk(start, start + |l.lines| - 1,
      Slice(anc, Min(l.ancStart, r.ancStart), Max(l.ancEnd, r.ancEnd)), l.lines, r.lines)
  }

  function Chunks(anc: seq<string>, pieces: seq<Piece>, start: nat): seq<ConflictChunk> {
    if pieces == [] then []
    else ChunkAt(anc, pieces[0], start) + Chunks(anc, pieces[1..], start + |Emit(anc, pieces[0])|)
  }

  function MergeHunks(anc: seq<string>, local: seq<Hunk>, remote: seq<Hunk>): MergeResult {
    var pieces := Weave(local, remote, 0, |anc|);
    var conflicts := Chunks(anc, pieces, 0);
    MergeResult(Merged(anc, pieces), conflicts, conflicts != [])
  }

  lemma {:induction false} MergedAppend(anc: seq<string>, xs: seq<Piece>, ys: seq<Piece>)
    ensures Merged(anc, xs + ys) == Merged(anc, xs) + Merged(anc, ys)
  {
    if xs == [] {
      assert xs + ys == ys;
    } else {
      MergedAppend(anc, xs[1..], ys);
      ConsAppend(xs, ys);
      Regroup(Merged(anc, xs + ys), Emit(anc, xs[0]), Merged(anc, xs[1..] + ys), Merged(anc, xs[1..]), Merged(anc, ys),
        Merged(anc, xs));
    }
  }

  /** The conflict a piece adds when it starts at output line `start`. */
  function ChunkAt(anc: seq<string>, p: Piece, start: nat): seq<ConflictChunk> {
    if p.Clash? then [ChunkOf(anc, p.l, p.r, start)] else []
  }

  lemma {:induction false} ChunksAppend(anc: seq<string>, xs: seq<Piece>, ys: seq<Piece>, start: nat, mid: nat)
    requires mid == start + |Merged(anc, xs)|
    ensures Chunks(anc, xs + ys, start) == Chunks(anc, xs, start) + Chunks(anc, ys, mid)
  {
    if xs == [] {
      NilConcat(ys);
      NilConcat(Chunks(anc, ys, start));
    } else {
      var rest, next := xs[1..], start + |Emit(anc, xs[0])|;
      ConsAppend(xs, ys);
      ChunksUnfold(anc, xs + ys, xs[0], rest + ys, start, next);
      ChunksUnfold(anc, xs, xs[0], rest, start, next);
      ChunksAppend(anc, rest, ys, next, mid);
      Regroup(Chunks(anc, xs + ys, start), ChunkAt(anc, xs[0], start), Chunks(anc, rest + ys, next),
        Chunks(anc, rest, next), Chunks(anc, ys, mid), Chunks(anc, xs, start));
    }
  }

  lemma ChunksUnfold(anc: seq<string>, pieces: seq<Piece>, p: Piece, rest: seq<Piece>, start: nat, next: nat)
    requires pieces != [] && pieces[0] == p && pieces[1..] == rest && next == start + |Emit(anc, p)|
    ensures Chunks(anc, pieces, start) == ChunkAt(anc, p, start) + Chunks(anc, rest, next)
    ensures |Merged(anc, pieces)| == |Emit(anc, p)| + |Merged(anc, rest)|
  {
  }

  lemma ChunksCons(anc: seq<string>, p: Piece, rest: seq<Piece>, start: nat)
    ensures Chunks(anc, [p] + rest, start) == ChunkAt(anc, p, start) + Chunks(anc, rest, start + |Emit(anc, p)|)
    ensures |Merged(anc, [p] + rest)| == |Emit(anc, p)| + |Merged(anc, rest)|
  {
    ConsParts(p, rest);
  }

  /** The merge loop's state agrees with the pieces emitted so far. */
  ghost predicate Emitted(
    anc: seq<string>, done: seq<Piece>, merged: seq<string>, conflicts: seq<ConflictChunk>)
  {
    merged == Merged(anc, done) && conflicts == Chunks(anc, done, 0)
  }

  /** Pushing one piece onto what has been emitted. */
  lemma EmitOne(
    anc: seq<string>, done: seq<Piece>, merged: seq<string>, conflicts: seq<ConflictChunk>, p: Piece)
    requires Emitted(anc, done, merged, conflicts)
    ensures Emitted(anc, done + [p], merged + Emit(anc, p), conflicts + ChunkAt(anc, p, |merged|))
  {
    MergedAppend(anc, done, [p]);
    ChunksAppend(anc, done, [p], 0, |merged|);
    OnePiece(anc, p, |merged|);
    TailIs(Merged(anc, done + [p]), merged, Merged(anc, [p]), Emit(anc, p));
    TailIs(Chunks(anc, done + [p], 0), conflicts, Chunks(anc, [p], |merged|), ChunkAt(anc, p, |merged|));
  }

  lemma OnePiece(anc: seq<string>, p: Piece, start: nat)
    ensures Merged(anc, [p]) == Emit(anc, p) && Chunks(anc, [p], start) == ChunkAt(anc, p, start)
  {
    assert [p][1..] == [];
    NilConcat(Emit(anc, p));
    NilConcat(ChunkAt(anc, p, start));
  }

  /** The piece an iteration handles once the kept lines before it are out. */
  function NextPiece(local: seq<Hunk>, remote: seq<Hunk>): Piece
    requires local != [] || remote != []
  {
    if Interacting(local, remote) then Joint(local[0], remote[0])
    else if LocalFirst(local, remote) then TakeLocal(local[0])
    else TakeRemote(remote[0])
  }

  lemma WeaveKept(local: seq<Hunk>, remote: seq<Hunk>, pos: nat, n: nat)
    requires local != [] || remote != []
    ensures var next := NextChange(local, remote);
      Weave(local, remote, pos, n) == KeepTo(pos, next) + Weave(local, remote, Max(pos, next), n)
  {
    assert forall x: seq<Piece> {:trigger [] + x} :: [] + x == x;
  }

  lemma WeaveNext(local: seq<Hunk>, remote: seq<Hunk>, pos: nat, n: nat)
    requires local != [] || remote != []
    requires pos >= NextChange(local, remote)
    ensures Weave(local, remote, pos, n) == [NextPiece(local, remote)] +
      if Interacting(local, remote) then
        Weave(local[1..], remote[1..], JointEnd(pos, local[0], remote[0]), n)
      else if LocalFirst(local, remote) then Weave(local[1..], remote, Max(pos, local[0].ancEnd), n)
      else Weave(local, remote[1..], Max(pos, remote[0].ancEnd), n)
  {
    assert forall x: seq<Piece> {:trigger [] + x} :: [] + x == x;
  }

  /** `emitEqual`. */
  method EmitEqual(ancestor: seq<string>, merged0: seq<string>, from: nat, to: nat) returns (merged: seq<string>)
    requires from <= to <= |ancestor|
    ensures merged == merged0 + Emit(ancestor, Keep(from, to))
  {
    merged := merged0;
    for k := from to to
      invariant merged == merged0 + ancestor[from..k]
    {
      merged := merged + [ancestor[k]];
    }
  }

  /** The branch for a pair of hunks that have to be classified jointly. */
  method EmitJoint(
    ancestor: seq<string>, lh: Hunk, rh: Hunk, pos0: nat, merged0: seq<string>, conflicts0: seq<ConflictChunk>)
    returns (pos: nat, merged: seq<string>, conflicts: seq<ConflictChunk>)
    ensures pos == JointEnd(pos0, lh, rh)
    ensures merged == merged0 + Emit(ancestor, Joint(lh, rh))
    ensures conflicts == conflicts0 + ChunkAt(ancestor, Joint(lh, rh), |merged0|)
  {
    pos, merged, conflicts := pos0, merged0, conflicts0;
    if IsInsert(lh) && IsInsert(rh) && lh.ancStart == rh.ancStart {
      if lh.lines == rh.lines {
        merged := merged + lh.lines;
      } else {
        merged := merged + lh.lines + rh.lines;
        ConcatAssociative(merged0, lh.lines, rh.lines);
      }
    } else if lh.lines == rh.lines {
      merged := merged + lh.lines;
      pos := Max(pos, Max(lh.ancEnd, rh.ancEnd));
    } else {
      var ancLines := Slice(ancestor, Min(lh.ancStart, rh.ancStart), Max(lh.ancEnd, rh.ancEnd));
      var start := |merged|;
      merged := merged + lh.lines;
      conflicts := conflicts + [ConflictChunk(start, |merged| - 1, ancLines, lh.lines, rh.lines)];
      pos := Max(pos, Max(lh.ancEnd, rh.ancEnd));
    }
  }

  /** Every hunk lies inside the ancestor. */
  ghost predicate Inside(hunks: seq<Hunk>, n: nat) {
    forall k :: 0 <= k < |hunks| ==> hunks[k].ancStart <= hunks[k].ancEnd <= n
  }

  lemma {:induction false} OrderedInside(hunks: seq<Hunk>, from: nat, n: nat)
    requires Ordered(hunks, from, n)
    ensures Inside(hunks, n)
  {
    if hunks != [] {
      OrderedInside(hunks[1..], hunks[0].ancEnd, n);
      assert forall k :: 1 <= k < |hunks| ==> hunks[k] == hunks[1..][k - 1];
    }
  }

  lemma DiffHunksInside(anc: seq<string>, diff: seq<DiffOp>)
    requires Source(diff) == anc
    ensures Ordered(HunksFrom(diff, 0, None), 0, |anc|) && Inside(HunksFrom(diff, 0, None), |anc|)
  {
    assert anc[0..] == anc;
    HunksOrdered(anc, diff, 0, None);
    OrderedInside(HunksFrom(diff, 0, None), 0, |anc|);
  }

  /** The merge loop as written: cursors `li`, `ri`, `pos` and the two output lists. */
  method MergeFromDiffs(ancestor: seq<string>, localDiff: seq<DiffOp>, remoteDiff: seq<DiffOp>)
    returns (result: MergeResult)
    requires Source(localDiff) == ancestor && Source(remoteDiff) == ancestor
    ensures result == MergeHunks(ancestor, HunksFrom(localDiff, 0, None), HunksFrom(remoteDiff, 0, None))
  {
    DiffHunksInside(ancestor, localDiff);
    DiffHunksInside(ancestor, remoteDiff);
    var local := ToHunks(localDiff);
    var remote := ToHunks(remoteDiff);
    result := MergeLoop(ancestor, local, remote);
  }

  /** The lines before the next change, when there are any. */
  method EmitKept(
    ancestor: seq<string>, merged0: seq<string>, conflicts: seq<ConflictChunk>, pos0: nat, next: nat,
    ghost done0: seq<Piece>)
    returns (merged: seq<string>, pos: nat, ghost done: seq<Piece>)
    requires next <= |ancestor| && Emitted(ancestor, done0, merged0, conflicts)
    ensures pos == Max(pos0, next) && done == done0 + KeepTo(pos0, next)
    ensures Emitted(ancestor, done, merged, conflicts)
  {
    merged, pos, done := merged0, pos0, done0;
    if pos < next {
      EmitOne(ancestor, done, merged, conflicts, Keep(pos, next));
      assert conflicts + ChunkAt(ancestor, Keep(pos, next), |merged|) == conflicts;
      merged := EmitEqual(ancestor, merged, pos, next);
      done := done + [Keep(pos, next)];
      pos := next;
    } else {
      assert done0 + KeepTo(pos0, next) == done0;
    }
  }

  /** The hunk, or pair of hunks, an iteration handles. */
  method EmitNext(
    ancestor: seq<string>, local: seq<Hunk>, remote: seq<Hunk>, li0: nat, ri0: nat, pos0: nat,
    merged0: seq<string>, conflicts0: seq<ConflictChunk>, ghost done0: seq<Piece>)
    returns (li: nat, ri: nat, pos: nat, merged: seq<string>, conflicts: seq<ConflictChunk>)
    requires li0 <= |local| && ri0 <= |remote| && (li0 < |local| || ri0 < |remote|)
    requires Emitted(ancestor, done0, merged0, conflicts0)
    ensures li0 <= li <= |local| && ri0 <= ri <= |remote| && li0 + ri0 < li + ri
    ensures pos0 >= NextChange(local[li0..], remote[ri0..]) ==>
      forall n :: Weave(local[li0..], remote[ri0..], pos0, n)
        == [NextPiece(local[li0..], remote[ri0..])] + Weave(local[li..], remote[ri..], pos, n)
    ensures Emitted(ancestor, done0 + [NextPiece(local[li0..], remote[ri0..])], merged, conflicts)
  {
    ghost var ls, rs := local[li0..], remote[ri0..];
    EmitOne(ancestor, done0, merged0, conflicts0, NextPiece(ls, rs));
    assert conflicts0 + [] == conflicts0;
    assert li0 < |local| ==> ls[1..] == local[li0 + 1..];
    assert ri0 < |remote| ==> rs[1..] == remote[ri0 + 1..];
    forall n | pos0 >= NextChange(ls, rs)
      ensures Weave(ls, rs, pos0, n) == [NextPiece(ls, rs)] +
        if Interacting(ls, rs) then Weave(ls[1..], rs[1..], JointEnd(pos0, ls[0], rs[0]), n)
        else if LocalFirst(ls, rs) then Weave(ls[1..], rs, Max(pos0, ls[0].ancEnd), n)
        else Weave(ls, rs[1..], Max(pos0, rs[0].ancEnd), n)
    {
      WeaveNext(ls, rs, pos0, n);
    }
    if li0 < |local| && ri0 < |remote| && HunksInteract(local[li0], remote[ri0]) {
      pos, merged, conflicts := EmitJoint(ancestor, local[li0], remote[ri0], pos0, merged0, conflicts0);
      li, ri := li0 + 1, ri0 + 1;
    } else if LocalFirst(local[li0..], remote[ri0..]) {
      merged, conflicts := merged0 + local[li0].lines, conflicts0;
      pos := Max(pos0, local[li0].ancEnd);
      li, ri := li0 + 1, ri0;
    } else {
      merged, conflicts := merged0 + remote[ri0].lines, conflicts0;
      pos := Max(pos0, remote[ri0].ancEnd);
      li, ri := li0, ri0 + 1;
    }
  }

  method MergeLoop(ancestor: seq<string>, local: seq<Hunk>, remote: seq<Hunk>) returns (result: MergeResult)
    requires Inside(local, |ancestor|) && Inside(remote, |ancestor|)
    ensures result == MergeHunks(ancestor, local, remote)
  {
    var n := |ancestor|;
    var merged: seq<string>, conflicts: seq<ConflictChunk> := [], [];
    ghost var done: seq<Piece> := [];
    ghost var goal := Weave(local, remote, 0, n);
    var li: nat, ri: nat, pos: nat := 0, 0, 0;
    assert local[0..] == local && remote[0..] == remote && done + goal == goal;
    while li < |local| || ri < |remote|
      invariant li <= |local| && ri <= |remote|
      invariant done + Weave(local[li..], remote[ri..], pos, n) == goal
      invariant Emitted(ancestor, done, merged, conflicts)
      decreases |local| - li + |remote| - ri
    {
      ghost var ls, rs, done0 := local[li..], remote[ri..], done;
      var nextChange := NextChange(local[li..], remote[ri..]);
      WeaveKept(ls, rs, pos, n);
      merged, pos, done := EmitKept(ancestor, merged, conflicts, pos, nextChange, done);
      ConcatAssociative(done0, done[|done0|..], Weave(ls, rs, pos, n));
      assert done + Weave(ls, rs, pos, n) == goal;
      li, ri, pos, merged, conflicts := EmitNext(ancestor, local, remote, li, ri, pos, merged, conflicts, done);
      ConcatAssociative(done, [NextPiece(ls, rs)], Weave(local[li..], remote[ri..], pos, n));
      done := done + [NextPiece(ls, rs)];
    }
    assert local[li..] == [] && remote[ri..] == [];
    merged, pos, done := EmitKept(ancestor, merged, conflicts, pos, n, done);
    result := MergeResult(merged, conflicts, |conflicts| > 0);
  }

  // ------------------------------------------------------------- whole texts

  /** One of the three short cuts on equal texts applies. */
  predicate ShortCut(anc: seq<string>, local: seq<string>, remote: seq<string>) {
    || Text.Join(local, Text.LF) == Text.Join(remote, Text.LF)
    || Text.Join(local, Text.LF) == Text.Join(anc, Text.LF)
    || Text.Join(remote, Text.LF) == Text.Join(anc, Text.LF)
  }

  /** The merge of normalised texts: three short cuts on equal texts, else the hunks decide. */
  function MergeLines(
    anc: seq<string>, local: seq<string>, remote: seq<string>, localDiff: seq<DiffOp>, remoteDiff: seq<DiffOp>)
    : MergeResult
  {
    if Text.Join(local, Text.LF) == Text.Join(remote, Text.LF) then MergeResult(local, [], false)
    else if Text.Join(local, Text.LF) == Text.Join(anc, Text.LF) then MergeResult(remote, [], false)
    else if Text.Join(remote, Text.LF) == Text.Join(anc, Text.LF) then MergeResult(local, [], false)
    else MergeHunks(anc, HunksFrom(localDiff, 0, None), HunksFrom(remoteDiff, 0, None))
  }

  /** `threeWayMerge`: unless a short cut applies, exact diffs against the ancestor, merged. */
  method ThreeWayMerge(ancestorText: string, localText: string, remoteText: string)
    returns (result: MergeResult, ghost localDiff: seq<DiffOp>, ghost remoteDiff: seq<DiffOp>)
    ensures var anc, local, remote :=
        Text.NormalizeLines(ancestorText), Text.NormalizeLines(localText), Text.NormalizeLines(remoteText);
      && result == MergeLines(anc, local, remote, localDiff, remoteDiff)
      && (ShortCut(anc, local, remote) || (
            && Spells(localDiff, anc, local) && Coalesced(localDiff)
            && Spells(remoteDiff, anc, remote) && Coalesced(remoteDiff)))
  {
    var ancestor := Text.NormalizeLines(ancestorText);
    var local := Text.NormalizeLines(localText);
    var remote := Text.NormalizeLines(remoteText);
    if Text.Join(local, Text.LF) == Text.Join(remote, Text.LF) {
      return MergeResult(local, [], false), [], [];
    }
    if Text.Join(local, Text.LF) == Text.Join(ancestor, Text.LF) {
      return MergeResult(remote, [], false), [], [];
    }
    if Text.Join(remote, Text.LF) == Text.Join(ancestor, Text.LF) {
      return MergeResult(local, [], false), [], [];
    }
    var localOps := DiffLines(ancestor, local);
    var remoteOps := DiffLines(ancestor, remote);
    result := MergeFromDiffs(ancestor, localOps, remoteOps);
    localDiff, remoteDiff := localOps, remoteOps;
  }
}
