/** What the three-way merge guarantees about its two inputs: conservation, symmetry, clean meaning. */
module ThreeWayLaws {
  import opened Base
  import opened Diff
  import opened ThreeWay
  import opened Text

  // ---------------------------------------------------- kept ancestor lines

  function Range(lo: nat, hi: nat): seq<nat>
    decreases hi - lo
  {
    if lo >= hi then [] else [lo] + Range(lo + 1, hi)
  }

  /** The ancestor line numbers the merge copies through, in output order. */
  function KeptLines(pieces: seq<Piece>): seq<nat> {
    if pieces == [] then []
    else (if pieces[0].Keep? then Range(pieces[0].from, pieces[0].to) else []) + KeptLines(pieces[1..])
  }

  predicate Deletes(hunks: seq<Hunk>, i: nat) {
    exists k :: 0 <= k < |hunks| && hunks[k].ancStart <= i < hunks[k].ancEnd
  }

  /** The ancestor line numbers in `[lo, hi)` that neither side replaces, ascending. */
  function Untouched(local: seq<Hunk>, remote: seq<Hunk>, lo: nat, hi: nat): seq<nat>
    decreases hi - lo
  {
    if lo >= hi then []
    else (if Deletes(local, lo) || Deletes(remote, lo) then [] else [lo]) + Untouched(local, remote, lo + 1, hi)
  }

  lemma {:induction false} UntouchedSplit(local: seq<Hunk>, remote: seq<Hunk>, lo: nat, mid: nat, hi: nat)
    requires lo <= mid <= hi
    ensures Untouched(local, remote, lo, hi) == Untouched(local, remote, lo, mid) + Untouched(local, remote, mid, hi)
    decreases mid - lo
  {
    if lo < mid {
      UntouchedSplit(local, remote, lo + 1, mid, hi);
    } else {
      assert [] + Untouched(local, remote, mid, hi) == Untouched(local, remote, mid, hi);
    }
  }

  lemma {:induction false} UntouchedFree(local: seq<Hunk>, remote: seq<Hunk>, lo: nat, hi: nat)
    requires forall i :: lo <= i < hi ==> !Deletes(local, i) && !Deletes(remote, i)
    ensures Untouched(local, remote, lo, hi) == Range(lo, hi)
    decreases hi - lo
  {
    if lo < hi {
      UntouchedFree(local, remote, lo + 1, hi);
    }
  }

  lemma {:induction false} UntouchedGone(local: seq<Hunk>, remote: seq<Hunk>, lo: nat, hi: nat)
    requires forall i :: lo <= i < hi ==> Deletes(local, i) || Deletes(remote, i)
    ensures Untouched(local, remote, lo, hi) == []
    decreases hi - lo
  {
    if lo < hi {
      UntouchedGone(local, remote, lo + 1, hi);
    }
  }

  lemma {:induction false} UntouchedCongruent(
    local: seq<Hunk>, remote: seq<Hunk>, local': seq<Hunk>, remote': seq<Hunk>, lo: nat, hi: nat)
    requires forall i :: lo <= i < hi ==>
      (Deletes(local, i) || Deletes(remote, i) <==> Deletes(local', i) || Deletes(remote', i))
    ensures Untouched(local, remote, lo, hi) == Untouched(local', remote', lo, hi)
    decreases hi - lo
  {
    if lo < hi {
      UntouchedCongruent(local, remote, local', remote', lo + 1, hi);
    }
  }

  /** Dropping a hunk that ends before `lo` does not change what is deleted from `lo` on. */
  lemma DeletesTail(hunks: seq<Hunk>, lo: nat, i: nat)
    requires hunks != [] && hunks[0].ancEnd <= lo <= i
    ensures Deletes(hunks, i) <==> Deletes(hunks[1..], i)
  {
    if Deletes(hunks, i) {
      var k :| 0 <= k < |hunks| && hunks[k].ancStart <= i < hunks[k].ancEnd;
      assert hunks[1..][k - 1] == hunks[k];
    }
    if Deletes(hunks[1..], i) {
      var k :| 0 <= k < |hunks[1..]| && hunks[1..][k].ancStart <= i < hunks[1..][k].ancEnd;
      assert hunks[k + 1] == hunks[1..][k];
    }
  }

  lemma {:induction false} OrderedStarts(hunks: seq<Hunk>, from: nat, n: nat, i: nat)
    requires Ordered(hunks, from, n)
    ensures hunks != [] && i < hunks[0].ancStart ==> !Deletes(hunks, i)
    ensures Deletes(hunks, i) ==> from <= i < n
  {
    if hunks != [] {
      OrderedStarts(hunks[1..], hunks[0].ancEnd, n, i);
      if Deletes(hunks, i) {
        var k :| 0 <= k < |hunks| && hunks[k].ancStart <= i < hunks[k].ancEnd;
        if k > 0 {
          assert hunks[1..][k - 1] == hunks[k];
          assert Deletes(hunks[1..], i);
        }
      }
    }
  }

  /** A list still to be processed: ordered, from wherever it starts. */
  ghost predicate Pending(hunks: seq<Hunk>, n: nat) {
    exists from :: Ordered(hunks, from, n)
  }

  lemma PendingTail(hunks: seq<Hunk>, n: nat)
    requires hunks != [] && Pending(hunks, n)
    ensures hunks[0].ancStart <= hunks[0].ancEnd <= n
    ensures Ordered(hunks[1..], hunks[0].ancEnd, n) && Pending(hunks[1..], n)
  {
  }

  lemma PendingStarts(hunks: seq<Hunk>, n: nat, i: nat)
    requires Pending(hunks, n) && hunks != [] && i < hunks[0].ancStart
    ensures !Deletes(hunks, i)
  {
    var from :| Ordered(hunks, from, n);
    OrderedStarts(hunks, from, n, i);
  }

  lemma KeptCons(kept: seq<Piece>, p: Piece, rest: seq<Piece>, pos: nat, next: nat)
    requires kept == KeepTo(pos, next) && !p.Keep?
    ensures KeptLines(kept + [p] + rest) == Range(pos, next) + KeptLines(rest)
  {
    var all := kept + [p] + rest;
    assert [] + KeptLines(rest) == KeptLines(rest);
    if pos < next {
      assert all[1..] == [p] + rest;
      assert ([p] + rest)[1..] == rest;
      assert all[0] == Keep(pos, next);
    } else {
      assert all == [p] + rest;
      assert all[1..] == rest;
    }
  }

  /** The lists and the position an iteration leaves behind. */
  function NextLocal(local: seq<Hunk>, remote: seq<Hunk>): seq<Hunk>
    requires local != [] || remote != []
  {
    if Interacting(local, remote) || LocalFirst(local, remote) then local[1..] else local
  }

  function NextRemote(local: seq<Hunk>, remote: seq<Hunk>): seq<Hunk>
    requires local != [] || remote != []
  {
    if Interacting(local, remote) || !LocalFirst(local, remote) then remote[1..] else remote
  }

  function NextPos(local: seq<Hunk>, remote: seq<Hunk>, at: nat): nat
    requires local != [] || remote != []
  {
    if Interacting(local, remote) then JointEnd(at, local[0], remote[0])
    else if LocalFirst(local, remote) then Max(at, local[0].ancEnd)
    else Max(at, remote[0].ancEnd)
  }

  lemma WeaveOnce(local: seq<Hunk>, remote: seq<Hunk>, pos: nat, n: nat)
    requires local != [] || remote != []
    ensures var next := NextChange(local, remote);
      Weave(local, remote, pos, n) == KeepTo(pos, next) + [NextPiece(local, remote)]
        + Weave(NextLocal(local, remote), NextRemote(local, remote), NextPos(local, remote, Max(pos, next)), n)
  {
    var next := NextChange(local, remote);
    ConcatAssociative(KeepTo(pos, next), [NextPiece(local, remote)],
      Weave(NextLocal(local, remote), NextRemote(local, remote), NextPos(local, remote, Max(pos, next)), n));
  }

  /** Every ancestor line an iteration jumps over is deleted by one of the hunks it consumes. */
  lemma JumpedAreDeleted(local: seq<Hunk>, remote: seq<Hunk>, at: nat, n: nat, i: nat)
    requires local != [] || remote != []
    requires Pending(local, n) && Pending(remote, n) && at >= NextChange(local, remote)
    requires at <= i < NextPos(local, remote, at)
    ensures Deletes(local, i) || Deletes(remote, i)
  {
    if Interacting(local, remote) {
      PendingTail(local, n);
      PendingTail(remote, n);
      var l, r := local[0], remote[0];
      if l.ancStart <= i < l.ancEnd {
        assert Deletes(local, i);
      } else {
        assert r.ancStart <= i < r.ancEnd;
        assert Deletes(remote, i);
      }
    } else if LocalFirst(local, remote) {
      assert local[0].ancStart <= i < local[0].ancEnd;
      assert Deletes(local, i);
    } else {
      assert remote[0].ancStart <= i < remote[0].ancEnd;
      assert Deletes(remote, i);
    }
  }

  /** Beyond that jump the consumed hunks delete nothing. */
  lemma ConsumedAreSpent(local: seq<Hunk>, remote: seq<Hunk>, at: nat, n: nat, i: nat)
    requires local != [] || remote != []
    requires Pending(local, n) && Pending(remote, n) && at >= NextChange(local, remote)
    requires NextPos(local, remote, at) <= i
    ensures Deletes(local, i) <==> Deletes(NextLocal(local, remote), i)
    ensures Deletes(remote, i) <==> Deletes(NextRemote(local, remote), i)
  {
    var end := NextPos(local, remote, at);
    if Interacting(local, remote) {
      DeletesTail(local, end, i);
      DeletesTail(remote, end, i);
    } else if LocalFirst(local, remote) {
      DeletesTail(local, end, i);
    } else {
      DeletesTail(remote, end, i);
    }
  }

  lemma UntouchedStep(local: seq<Hunk>, remote: seq<Hunk>, pos: nat, n: nat)
    requires local != [] || remote != []
    requires Pending(local, n) && Pending(remote, n) && pos <= n
    ensures var next := NextChange(local, remote);
      var end := NextPos(local, remote, Max(pos, next));
      end <= n && Untouched(local, remote, pos, n)
        == Range(pos, next) + Untouched(NextLocal(local, remote), NextRemote(local, remote), end, n)
  {
    if local != [] { PendingTail(local, n); }
    if remote != [] { PendingTail(remote, n); }
    var next := NextChange(local, remote);
    var at := Max(pos, next);
    var end := NextPos(local, remote, at);
    UntouchedSplit(local, remote, pos, at, n);
    forall i | pos <= i < at ensures !Deletes(local, i) && !Deletes(remote, i) {
      if local != [] { PendingStarts(local, n, i); }
      if remote != [] { PendingStarts(remote, n, i); }
    }
    UntouchedFree(local, remote, pos, at);
    assert Range(pos, at) == Range(pos, next);
    UntouchedSplit(local, remote, at, end, n);
    forall i | at <= i < end ensures Deletes(local, i) || Deletes(remote, i) {
      JumpedAreDeleted(local, remote, at, n, i);
    }
    UntouchedGone(local, remote, at, end);
    forall i | end <= i < n
      ensures Deletes(local, i) || Deletes(remote, i) <==>
        Deletes(NextLocal(local, remote), i) || Deletes(NextRemote(local, remote), i)
    {
      ConsumedAreSpent(local, remote, at, n, i);
    }
    UntouchedCongruent(local, remote, NextLocal(local, remote), NextRemote(local, remote), end, n);
    var tail := Untouched(NextLocal(local, remote), NextRemote(local, remote), end, n);
    assert [] + tail == tail;
  }

  /**
   * Conservation of the ancestor: for any two hunk lists, the merge copies through exactly the
   * ancestor lines neither side deleted, once each and in order.
   */
  lemma {:induction false} KeptIsUntouched(local: seq<Hunk>, remote: seq<Hunk>, pos: nat, n: nat)
    requires Pending(local, n) && Pending(remote, n) && pos <= n
    ensures KeptLines(Weave(local, remote, pos, n)) == Untouched(local, remote, pos, n)
    decreases |local| + |remote|
  {
    if local == [] && remote == [] {
      UntouchedFree(local, remote, pos, n);
      if pos < n {
        assert [Keep(pos, n)][1..] == [];
        assert Range(pos, n) + [] == Range(pos, n);
      }
    } else {
      var next := NextChange(local, remote);
      var end := NextPos(local, remote, Max(pos, next));
      if local != [] { PendingTail(local, n); }
      if remote != [] { PendingTail(remote, n); }
      UntouchedStep(local, remote, pos, n);
      KeptIsUntouched(NextLocal(local, remote), NextRemote(local, remote), end, n);
      WeaveOnce(local, remote, pos, n);
      KeptCons(KeepTo(pos, next), NextPiece(local, remote),
        Weave(NextLocal(local, remote), NextRemote(local, remote), end, n), pos, next);
    }
  }

  // --------------------------------------------------- no hunk is lost or doubled

  function LocalHunks(pieces: seq<Piece>): seq<Hunk> {
    if pieces == [] then []
    else (if pieces[0].Keep? || pieces[0].TakeRemote? then [] else [pieces[0].l]) + LocalHunks(pieces[1..])
  }

  function RemoteHunks(pieces: seq<Piece>): seq<Hunk> {
    if pieces == [] then []
    else (if pieces[0].Keep? || pieces[0].TakeLocal? then [] else [pieces[0].r]) + RemoteHunks(pieces[1..])
  }

  lemma HunksCons(kept: seq<Piece>, p: Piece, rest: seq<Piece>, pos: nat, next: nat)
    requires kept == KeepTo(pos, next) && !p.Keep?
    ensures LocalHunks(kept + [p] + rest) == (if p.TakeRemote? then [] else [p.l]) + LocalHunks(rest)
    ensures RemoteHunks(kept + [p] + rest) == (if p.TakeLocal? then [] else [p.r]) + RemoteHunks(rest)
  {
    var all := kept + [p] + rest;
    assert ([p] + rest)[1..] == rest;
    var ls, rs := LocalHunks([p] + rest), RemoteHunks([p] + rest);
    assert [] + ls == ls && [] + rs == rs;
    if pos < next {
      assert all[1..] == [p] + rest && all[0] == Keep(pos, next);
    } else {
      assert all == [p] + rest;
    }
  }

  lemma ConsumedHunks(local: seq<Hunk>, remote: seq<Hunk>)
    requires local != [] || remote != []
    ensures var p := NextPiece(local, remote);
      local == (if p.TakeRemote? then [] else [p.l]) + NextLocal(local, remote)
      && remote == (if p.TakeLocal? then [] else [p.r]) + NextRemote(local, remote)
  {
  }

  /** Every hunk of either side is used in exactly one piece, in its own order. */
  lemma {:induction false} EveryHunkOnce(local: seq<Hunk>, remote: seq<Hunk>, pos: nat, n: nat)
    ensures LocalHunks(Weave(local, remote, pos, n)) == local
    ensures RemoteHunks(Weave(local, remote, pos, n)) == remote
    decreases |local| + |remote|
  {
    if local == [] && remote == [] {
      if pos < n {
        assert [Keep(pos, n)][1..] == [];
      }
    } else {
      var next := NextChange(local, remote);
      var end := NextPos(local, remote, Max(pos, next));
      var ls, rs := NextLocal(local, remote), NextRemote(local, remote);
      EveryHunkOnce(ls, rs, end, n);
      WeaveOnce(local, remote, pos, n);
      HunksCons(KeepTo(pos, next), NextPiece(local, remote), Weave(ls, rs, end, n), pos, next);
      ConsumedHunks(local, remote);
    }
  }

  ghost predicate OccursAt(block: seq<string>, text: seq<string>, k: nat) {
    k + |block| <= |text| && text[k..k + |block|] == block
  }

  /** `block` is a contiguous run of `text`. */
  ghost predicate Occurs(block: seq<string>, text: seq<string>) {
    exists k :: OccursAt(block, text, k)
  }

  lemma OccursIn(before: seq<string>, block: seq<string>, after: seq<string>)
    ensures Occurs(block, before + block + after)
  {
    assert OccursAt(block, before + block + after, |before|);
  }

  lemma OccursTransitive(x: seq<string>, y: seq<string>, z: seq<string>)
    requires Occurs(x, y) && Occurs(y, z)
    ensures Occurs(x, z)
  {
    var j: nat, k: nat :| OccursAt(x, y, j) && OccursAt(y, z, k);
    forall i | 0 <= i < |x| ensures z[k + j..k + j + |x|][i] == x[i] {
      assert x[i] == y[j..j + |x|][i] == y[j + i];
      assert y[j + i] == z[k..k + |y|][j + i];
    }
    assert OccursAt(x, z, k + j);
  }

  lemma PartsOccur(x: seq<string>, y: seq<string>, text: seq<string>)
    requires Occurs(x + y, text)
    ensures Occurs(x, text) && Occurs(y, text)
  {
    OccursIn([], x, y);
    OccursIn(x, y, []);
    assert [] + x + y == x + y == x + y + [];
    OccursTransitive(x, x + y, text);
    OccursTransitive(y, x + y, text);
  }

  lemma {:induction false} PieceOccurs(anc: seq<string>, pieces: seq<Piece>, k: nat)
    requires k < |pieces|
    ensures Occurs(Emit(anc, pieces[k]), Merged(anc, pieces))
  {
    var before, after := Merged(anc, pieces[..k]), Merged(anc, pieces[k + 1..]);
    assert pieces == pieces[..k] + pieces[k..];
    MergedAppend(anc, pieces[..k], pieces[k..]);
    assert pieces[k..][1..] == pieces[k + 1..];
    ConcatAssociative(before, Emit(anc, pieces[k]), after);
    OccursIn(before, Emit(anc, pieces[k]), after);
  }

  lemma {:induction false} LocalHunkPiece(pieces: seq<Piece>, i: nat) returns (k: nat)
    requires i < |LocalHunks(pieces)|
    ensures k < |pieces| && !pieces[k].Keep? && !pieces[k].TakeRemote? && pieces[k].l == LocalHunks(pieces)[i]
  {
    var skip := if pieces[0].Keep? || pieces[0].TakeRemote? then 0 else 1;
    if i < skip {
      k := 0;
    } else {
      k := LocalHunkPiece(pieces[1..], i - skip);
      k := k + 1;
    }
  }

  lemma {:induction false} RemoteHunkPiece(pieces: seq<Piece>, i: nat) returns (k: nat)
    requires i < |RemoteHunks(pieces)|
    ensures k < |pieces| && !pieces[k].Keep? && !pieces[k].TakeLocal? && pieces[k].r == RemoteHunks(pieces)[i]
  {
    var skip := if pieces[0].Keep? || pieces[0].TakeLocal? then 0 else 1;
    if i < skip {
      k := 0;
    } else {
      k := RemoteHunkPiece(pieces[1..], i - skip);
      k := k + 1;
    }
  }

  lemma {:induction false} ClashHasChunk(anc: seq<string>, pieces: seq<Piece>, start: nat, k: nat)
    returns (c: ConflictChunk)
    requires k < |pieces| && pieces[k].Clash?
    ensures c in Chunks(anc, pieces, start) && c.local == pieces[k].l.lines && c.remote == pieces[k].r.lines
  {
    assert pieces == [pieces[0]] + pieces[1..];
    ChunksCons(anc, pieces[0], pieces[1..], start);
    if k == 0 {
      c := ChunkOf(anc, pieces[0].l, pieces[0].r, start);
      assert c in ChunkAt(anc, pieces[0], start);
    } else {
      c := ClashHasChunk(anc, pieces[1..], start + |Emit(anc, pieces[0])|, k - 1);
    }
  }

  /** Every local change is in the merged text, in conflicts too: the local side is the placeholder. */
  lemma LocalLinesSurvive(anc: seq<string>, local: seq<Hunk>, remote: seq<Hunk>, i: nat)
    requires i < |local|
    ensures Occurs(local[i].lines, MergeHunks(anc, local, remote).merged)
  {
    var pieces := Weave(local, remote, 0, |anc|);
    EveryHunkOnce(local, remote, 0, |anc|);
    var k := LocalHunkPiece(pieces, i);
    PieceOccurs(anc, pieces, k);
    if pieces[k].Union? {
      PartsOccur(pieces[k].l.lines, pieces[k].r.lines, Merged(anc, pieces));
    }
  }

  /** Every remote change is in the merged text or offered by a conflict: none is dropped. */
  lemma RemoteLinesSurvive(anc: seq<string>, local: seq<Hunk>, remote: seq<Hunk>, i: nat)
    requires i < |remote|
    ensures Occurs(remote[i].lines, MergeHunks(anc, local, remote).merged)
      || exists c :: c in MergeHunks(anc, local, remote).conflicts && c.remote == remote[i].lines
  {
    var pieces := Weave(local, remote, 0, |anc|);
    EveryHunkOnce(local, remote, 0, |anc|);
    var k := RemoteHunkPiece(pieces, i);
    PieceOccurs(anc, pieces, k);
    JointPieces(local, remote, 0, |anc|, k);
    if pieces[k].Clash? {
      var c := ClashHasChunk(anc, pieces, 0, k);
    } else if pieces[k].Union? {
      PartsOccur(pieces[k].l.lines, pieces[k].r.lines, Merged(anc, pieces));
    }
  }

  /** What a piece made of two hunks says about them. */
  lemma {:induction false} JointPieces(local: seq<Hunk>, remote: seq<Hunk>, pos: nat, n: nat, k: nat)
    requires k < |Weave(local, remote, pos, n)|
    ensures var p := Weave(local, remote, pos, n)[k];
      && (p.Agreed? ==> p.l.lines == p.r.lines)
      && (p.Union? ==> (p.l in local && p.r in remote && SameGap(p.l, p.r) && p.l.lines != p.r.lines))
    decreases |local| + |remote|
  {
    if local != [] || remote != [] {
      var next := NextChange(local, remote);
      var end := NextPos(local, remote, Max(pos, next));
      WeaveOnce(local, remote, pos, n);
      var skip := |KeepTo(pos, next)| + 1;
      if k >= skip {
        JointPieces(NextLocal(local, remote), NextRemote(local, remote), end, n, k - skip);
      }
    }
  }

  /** Two pure insertions at one ancestor gap. */
  predicate SameGap(l: Hunk, r: Hunk) {
    IsInsert(l) && IsInsert(r) && l.ancStart == r.ancStart
  }

  // ------------------------------------------------------------- swapping sides

  function Swap(p: Piece): Piece {
    match p
    case Keep(from, to) => p
    case TakeLocal(l) => TakeRemote(l)
    case TakeRemote(r) => TakeLocal(r)
    case Agreed(l, r) => Agreed(r, l)
    case Union(l, r) => Union(r, l)
    case Clash(l, r) => Clash(r, l)
  }

  function SwapAll(pieces: seq<Piece>): seq<Piece> {
    seq(|pieces|, k requires 0 <= k < |pieces| => Swap(pieces[k]))
  }

  /** The two cursors do the same thing when the sides trade places. */
  lemma SwapStep(local: seq<Hunk>, remote: seq<Hunk>, n: nat)
    requires local != [] || remote != []
    requires Pending(local, n) && Pending(remote, n)
    ensures NextChange(remote, local) == NextChange(local, remote)
    ensures NextPiece(remote, local) == Swap(NextPiece(local, remote))
    ensures NextLocal(remote, local) == NextRemote(local, remote)
    ensures NextRemote(remote, local) == NextLocal(local, remote)
    ensures forall at :: NextPos(remote, local, at) == NextPos(local, remote, at)
  {
    if local != [] { PendingTail(local, n); }
    if remote != [] { PendingTail(remote, n); }
  }

  lemma {:induction false} WeaveSwaps(local: seq<Hunk>, remote: seq<Hunk>, pos: nat, n: nat)
    requires Pending(local, n) && Pending(remote, n)
    ensures Weave(remote, local, pos, n) == SwapAll(Weave(local, remote, pos, n))
    decreases |local| + |remote|
  {
    if local != [] || remote != [] {
      if local != [] { PendingTail(local, n); }
      if remote != [] { PendingTail(remote, n); }
      SwapStep(local, remote, n);
      var next := NextChange(local, remote);
      var end := NextPos(local, remote, Max(pos, next));
      var ls, rs := NextLocal(local, remote), NextRemote(local, remote);
      WeaveSwaps(ls, rs, end, n);
      WeaveOnce(local, remote, pos, n);
      WeaveOnce(remote, local, pos, n);
      SwapAllConcat(KeepTo(pos, next), NextPiece(local, remote), Weave(ls, rs, end, n));
    }
  }

  lemma SwapAllConcat(kept: seq<Piece>, p: Piece, rest: seq<Piece>)
    requires forall k :: 0 <= k < |kept| ==> kept[k].Keep?
    ensures SwapAll(kept + [p] + rest) == kept + [Swap(p)] + SwapAll(rest)
  {
    var all, swapped := kept + [p] + rest, kept + [Swap(p)] + SwapAll(rest);
    forall k | 0 <= k < |all| ensures Swap(all[k]) == swapped[k] {
    }
  }

  /** `d` is the conflict `c` seen from the other device. */
  predicate SwappedChunk(c: ConflictChunk, d: ConflictChunk) {
    d.local == c.remote && d.remote == c.local && d.ancestor == c.ancestor
  }

  lemma {:induction false} ChunksSwap(anc: seq<string>, pieces: seq<Piece>, s: nat, t: nat)
    ensures var cs, ds := Chunks(anc, pieces, s), Chunks(anc, SwapAll(pieces), t);
      |cs| == |ds| && forall k :: 0 <= k < |cs| ==> SwappedChunk(cs[k], ds[k])
  {
    if pieces != [] {
      var p, rest := pieces[0], pieces[1..];
      assert pieces == [p] + rest && SwapAll(pieces) == [Swap(p)] + SwapAll(rest);
      ChunksCons(anc, p, rest, s);
      ChunksCons(anc, Swap(p), SwapAll(rest), t);
      ChunksSwap(anc, rest, s + |Emit(anc, p)|, t + |Emit(anc, Swap(p))|);
      ChunkSwaps(anc, p, s, t, Chunks(anc, rest, s + |Emit(anc, p)|), Chunks(anc, SwapAll(rest), t + |Emit(anc, Swap(p))|));
    }
  }

  lemma ChunkSwaps(anc: seq<string>, p: Piece, s: nat, t: nat, cs: seq<ConflictChunk>, ds: seq<ConflictChunk>)
    requires |cs| == |ds| && forall k :: 0 <= k < |cs| ==> SwappedChunk(cs[k], ds[k])
    ensures var cs', ds' := ChunkAt(anc, p, s) + cs, ChunkAt(anc, Swap(p), t) + ds;
      |cs'| == |ds'| && forall k :: 0 <= k < |cs'| ==> SwappedChunk(cs'[k], ds'[k])
  {
    if p.Clash? {
      assert SwappedChunk(ChunkOf(anc, p.l, p.r, s), ChunkOf(anc, p.r, p.l, t));
    }
  }

  /**
   * Merging on the other device finds the same conflicts with the two sides exchanged, hence
   * conflicts if and only if this device does.
   */
  lemma MergeSwaps(anc: seq<string>, local: seq<Hunk>, remote: seq<Hunk>)
    requires Pending(local, |anc|) && Pending(remote, |anc|)
    ensures var here, there := MergeHunks(anc, local, remote), MergeHunks(anc, remote, local);
      && here.hasConflicts == there.hasConflicts
      && |here.conflicts| == |there.conflicts|
      && forall k :: 0 <= k < |here.conflicts| ==> SwappedChunk(here.conflicts[k], there.conflicts[k])
  {
    WeaveSwaps(local, remote, 0, |anc|);
    ChunksSwap(anc, Weave(local, remote, 0, |anc|), 0, 0);
  }

  /** Both sides inserted at one gap, and the order of the two insertions shows. */
  ghost predicate DivergentInsertions(local: seq<Hunk>, remote: seq<Hunk>) {
    exists l, r :: l in local && r in remote && SameGap(l, r) && OrderShows(l, r)
  }

  predicate OrderShows(l: Hunk, r: Hunk) {
    l.lines + r.lines != r.lines + l.lines
  }

  predicate SameEither(anc: seq<string>, p: Piece) {
    Emit(anc, Swap(p)) == Emit(anc, p)
  }

  lemma {:induction false} SameEmission(anc: seq<string>, pieces: seq<Piece>)
    requires forall k :: 0 <= k < |pieces| ==>
      !pieces[k].Clash? && (pieces[k].Agreed? ==> pieces[k].l.lines == pieces[k].r.lines)
    ensures |Merged(anc, SwapAll(pieces))| == |Merged(anc, pieces)|
    ensures Merged(anc, SwapAll(pieces)) == Merged(anc, pieces) <==>
      forall k :: 0 <= k < |pieces| ==> SameEither(anc, pieces[k])
  {
    if pieces != [] {
      var p, rest := pieces[0], pieces[1..];
      assert SwapAll(pieces)[1..] == SwapAll(rest) && SwapAll(pieces)[0] == Swap(p);
      SameEmission(anc, rest);
      ConcatEqual(Emit(anc, Swap(p)), Merged(anc, SwapAll(rest)), Emit(anc, p), Merged(anc, rest));
      forall k | 0 <= k < |rest| ensures rest[k] == pieces[k + 1] {
      }
    }
  }

  lemma ConcatEqual<T>(a: seq<T>, b: seq<T>, c: seq<T>, d: seq<T>)
    requires |a| == |c|
    ensures a + b == c + d <==> a == c && b == d
  {
    if a + b == c + d {
      assert (a + b)[..|a|] == a && (a + b)[|a|..] == b;
      assert (c + d)[..|c|] == c && (c + d)[|c|..] == d;
    }
  }

  /** A merge has conflicts exactly when some piece clashes. */
  lemma {:induction false} ClashlessIff(anc: seq<string>, pieces: seq<Piece>, s: nat)
    ensures Chunks(anc, pieces, s) == [] <==> Clashless(pieces)
  {
    if pieces != [] {
      var next := s + |Emit(anc, pieces[0])|;
      ChunksUnfold(anc, pieces, pieces[0], pieces[1..], s, next);
      ClashlessIff(anc, pieces[1..], next);
      EmptyConcat(Chunks(anc, pieces, s), ChunkAt(anc, pieces[0], s), Chunks(anc, pieces[1..], next));
      ClashlessCons(pieces);
    }
  }

  lemma ClashlessCons(pieces: seq<Piece>)
    requires pieces != []
    ensures Clashless(pieces) <==> !pieces[0].Clash? && Clashless(pieces[1..])
  {
    ConsAppend(pieces, []);
  }

  /** What is left of a list after an iteration still holds its `i`-th hunk. */
  ghost predicate Waits(hunks: seq<Hunk>, rest: seq<Hunk>, n: nat, i: nat)
    requires i < |hunks|
  {
    var d := |hunks| - |rest|;
    Pending(rest, n) && Separated(rest) && 0 <= d <= i && rest[i - d] == hunks[i]
  }

  lemma WaitsLeft(hunks: seq<Hunk>, rest: seq<Hunk>, n: nat, i: nat)
    requires Pending(hunks, n) && Separated(hunks) && i < |hunks|
    requires rest == hunks || (i > 0 && rest == hunks[1..])
    ensures Waits(hunks, rest, n, i)
  {
    StartsAfterHead(hunks, n, i);
  }

  /** An iteration that does not take both of two insertions at one gap takes neither. */
  lemma SameGapWaits(local: seq<Hunk>, remote: seq<Hunk>, n: nat, i: nat, j: nat)
    requires Pending(local, n) && Separated(local) && Pending(remote, n) && Separated(remote)
    requires i < |local| && j < |remote| && SameGap(local[i], remote[j]) && (i > 0 || j > 0)
    ensures Waits(local, NextLocal(local, remote), n, i)
    ensures Waits(remote, NextRemote(local, remote), n, j)
  {
    StartsAfterHead(local, n, i);
    StartsAfterHead(remote, n, j);
    WaitingHead(local, remote, i, j);
    WaitsLeft(local, NextLocal(local, remote), n, i);
    WaitsLeft(remote, NextRemote(local, remote), n, j);
  }

  lemma WaitingHead(local: seq<Hunk>, remote: seq<Hunk>, i: nat, j: nat)
    requires i < |local| && j < |remote| && SameGap(local[i], remote[j]) && (i > 0 || j > 0)
    requires i > 0 ==> local[0].ancStart <= local[0].ancEnd < local[i].ancStart
    requires j > 0 ==> remote[0].ancStart <= remote[0].ancEnd < remote[j].ancStart
    ensures i == 0 ==> !Interacting(local, remote) && !LocalFirst(local, remote)
    ensures j == 0 ==> !Interacting(local, remote) && LocalFirst(local, remote)
  {
  }

  /** The pieces of a merge, one iteration at a time. */
  lemma WeaveHas(local: seq<Hunk>, remote: seq<Hunk>, pos: nat, n: nat, p: Piece)
    requires (local != [] || remote != []) && !p.Keep?
    ensures var end := NextPos(local, remote, Max(pos, NextChange(local, remote)));
      p in Weave(local, remote, pos, n) <==>
        p == NextPiece(local, remote) || p in Weave(NextLocal(local, remote), NextRemote(local, remote), end, n)
  {
    WeaveOnce(local, remote, pos, n);
  }

  lemma StillWaiting(hunks: seq<Hunk>, rest: seq<Hunk>, n: nat, i: nat) returns (i': nat)
    requires i < |hunks| && Waits(hunks, rest, n, i)
    ensures Pending(rest, n) && Separated(rest) && i' < |rest| && rest[i'] == hunks[i]
  {
    i' := i - (|hunks| - |rest|);
  }

  /** An insertion of each side at one gap: the two cursors meet there. */
  lemma {:induction false} SameGapMeets(
    local: seq<Hunk>, remote: seq<Hunk>, pos: nat, n: nat, i: nat, j: nat, l: Hunk, r: Hunk)
    requires Pending(local, n) && Separated(local) && Pending(remote, n) && Separated(remote)
    requires i < |local| && j < |remote| && l == local[i] && r == remote[j] && SameGap(l, r)
    ensures Joint(l, r) in Weave(local, remote, pos, n)
    decreases |local| + |remote|
  {
    var end := NextPos(local, remote, Max(pos, NextChange(local, remote)));
    WeaveHas(local, remote, pos, n, Joint(l, r));
    if i > 0 || j > 0 {
      SameGapWaits(local, remote, n, i, j);
      var i' := StillWaiting(local, NextLocal(local, remote), n, i);
      var j' := StillWaiting(remote, NextRemote(local, remote), n, j);
      SameGapMeets(NextLocal(local, remote), NextRemote(local, remote), end, n, i', j', l, r);
    }
  }

  lemma StartsAfterHead(hunks: seq<Hunk>, n: nat, i: nat)
    requires Pending(hunks, n) && Separated(hunks) && i < |hunks|
    ensures i > 0 ==> hunks[0].ancStart <= hunks[0].ancEnd < hunks[i].ancStart
    ensures Pending(hunks[1..], n) && Separated(hunks[1..])
  {
    PendingTail(hunks, n);
    if i > 1 {
      OrderedAfter(hunks[2..], hunks[1].ancEnd, n, i - 2);
      assert hunks[1..][1..] == hunks[2..];
    }
  }

  /**
   * A clean merge gives both devices the same text exactly when no two insertions at one gap show
   * their order (there the local lines go first on each device).
   */
  lemma CleanMergeAgrees(anc: seq<string>, local: seq<Hunk>, remote: seq<Hunk>)
    requires Pending(local, |anc|) && Separated(local) && Pending(remote, |anc|) && Separated(remote)
    requires !MergeHunks(anc, local, remote).hasConflicts
    ensures MergeHunks(anc, remote, local).merged == MergeHunks(anc, local, remote).merged <==>
      !DivergentInsertions(local, remote)
  {
    var pieces := Weave(local, remote, 0, |anc|);
    WeaveSwaps(local, remote, 0, |anc|);
    ClashlessIff(anc, pieces, 0);
    CalmPieces(anc, local, remote);
    SameEmission(anc, pieces);
    if DivergentInsertions(local, remote) {
      var p := LoudPiece(anc, local, remote);
    }
  }

  lemma CalmPieces(anc: seq<string>, local: seq<Hunk>, remote: seq<Hunk>)
    ensures forall k :: 0 <= k < |Weave(local, remote, 0, |anc|)| ==>
      var p := Weave(local, remote, 0, |anc|)[k];
      && (p.Agreed? ==> p.l.lines == p.r.lines)
      && (!p.Clash? && !DivergentInsertions(local, remote) ==> SameEither(anc, p))
  {
    forall k | 0 <= k < |Weave(local, remote, 0, |anc|)|
      ensures var p := Weave(local, remote, 0, |anc|)[k];
        && (p.Agreed? ==> p.l.lines == p.r.lines)
        && (!p.Clash? && !DivergentInsertions(local, remote) ==> SameEither(anc, p))
    {
      JointPieces(local, remote, 0, |anc|, k);
    }
  }

  lemma LoudPiece(anc: seq<string>, local: seq<Hunk>, remote: seq<Hunk>) returns (p: Piece)
    requires Pending(local, |anc|) && Separated(local) && Pending(remote, |anc|) && Separated(remote)
    requires DivergentInsertions(local, remote)
    ensures p in Weave(local, remote, 0, |anc|) && !SameEither(anc, p)
  {
    var l, r :| l in local && r in remote && SameGap(l, r) && OrderShows(l, r);
    var i: nat :| i < |local| && local[i] == l;
    var j: nat :| j < |remote| && remote[j] == r;
    SameGapMeets(local, remote, 0, |anc|, i, j, l, r);
    p := Joint(l, r);
  }

  /** The exclusion is needed: two different appends to an empty ancestor come out in opposite orders. */
  lemma DivergentInsertionsDiffer()
    ensures var l, r := [Hunk(0, 0, ["a"])], [Hunk(0, 0, ["b"])];
      && MergeHunks([], l, r) == MergeResult(["a", "b"], [], false)
      && MergeHunks([], r, l) == MergeResult(["b", "a"], [], false)
  {
    var x, y := ["a"], ["b"];
    assert x[0][0] == 'a' && y[0][0] == 'b';
    UnionOfTwo(Hunk(0, 0, x), Hunk(0, 0, y));
    UnionOfTwo(Hunk(0, 0, y), Hunk(0, 0, x));
    assert x + y == ["a", "b"] && y + x == ["b", "a"];
  }

  lemma UnionOfTwo(l: Hunk, r: Hunk)
    requires l.ancStart == l.ancEnd == r.ancStart == r.ancEnd == 0 && l.lines != r.lines
    ensures MergeHunks([], [l], [r]) == MergeResult(l.lines + r.lines, [], false)
  {
    var rest := Weave([], [], 0, 0);
    assert [l][1..] == [] && [r][1..] == [];
    assert Weave([l], [r], 0, 0) == [Union(l, r)] + rest == [Union(l, r)];
    assert [Union(l, r)][1..] == [];
    assert Merged([], [Union(l, r)]) == (l.lines + r.lines) + [] == l.lines + r.lines;
    ChunksCons([], Union(l, r), [], 0);
    assert Chunks([], [Union(l, r)] + [], 0) == [];
    assert [Union(l, r)] + [] == [Union(l, r)];
  }

  // ------------------------------------------------------- what a clean merge means

  ghost predicate NoInteraction(local: seq<Hunk>, remote: seq<Hunk>) {
    forall l, r :: l in local && r in remote ==> !HunksInteract(l, r)
  }

  /** Both hunk lists in one, by ancestor position. */
  function Interleave(local: seq<Hunk>, remote: seq<Hunk>): seq<Hunk>
    decreases |local| + |remote|
  {
    if local == [] then remote
    else if remote == [] then local
    else if LocalFirst(local, remote) then [local[0]] + Interleave(local[1..], remote)
    else [remote[0]] + Interleave(local, remote[1..])
  }

  /** Two hunks that do not interact leave room for each other: the earlier one ends first. */
  lemma FirstEndsFirst(l: Hunk, r: Hunk)
    requires l.ancStart <= l.ancEnd && r.ancStart <= r.ancEnd && !HunksInteract(l, r)
    ensures LocalFirst([l], [r]) ==> l.ancEnd <= r.ancStart
    ensures !LocalFirst([l], [r]) ==> r.ancEnd <= l.ancStart
  {
  }

  lemma {:induction false} InterleaveOrdered(local: seq<Hunk>, remote: seq<Hunk>, pos: nat, n: nat)
    requires Ordered(local, pos, n) && Ordered(remote, pos, n) && NoInteraction(local, remote)
    ensures Ordered(Interleave(local, remote), pos, n)
    ensures multiset(Interleave(local, remote)) == multiset(local) + multiset(remote)
    decreases |local| + |remote|
  {
    if local != [] && remote != [] {
      var l, r := local[0], remote[0];
      FirstEndsFirst(l, r);
      if LocalFirst(local, remote) {
        OrderedLater(remote, pos, l.ancEnd, n);
        InterleaveOrdered(local[1..], remote, l.ancEnd, n);
        HeadFirst(local, remote, l, Interleave(local[1..], remote));
      } else {
        OrderedLater(local, pos, r.ancEnd, n);
        InterleaveOrdered(local, remote[1..], r.ancEnd, n);
        HeadFirst(remote, local, r, Interleave(local, remote[1..]));
      }
    }
  }

  lemma HeadFirst(mine: seq<Hunk>, theirs: seq<Hunk>, h: Hunk, rest: seq<Hunk>)
    requires mine != [] && h == mine[0] && multiset(rest) == multiset(mine[1..]) + multiset(theirs)
    ensures multiset([h] + rest) == multiset(mine) + multiset(theirs) && ([h] + rest)[1..] == rest
  {
    assert mine == [h] + mine[1..];
  }

  lemma OrderedLater(hunks: seq<Hunk>, pos: nat, from: nat, n: nat)
    requires Ordered(hunks, pos, n) && hunks != [] && from <= hunks[0].ancStart
    ensures Ordered(hunks, from, n)
  {
  }

  lemma InterleaveStep(local: seq<Hunk>, remote: seq<Hunk>)
    requires local != [] || remote != []
    ensures var h := if LocalFirst(local, remote) then local[0] else remote[0];
      var ls := if LocalFirst(local, remote) then local[1..] else local;
      var rs := if LocalFirst(local, remote) then remote else remote[1..];
      Interleave(local, remote) == [h] + Interleave(ls, rs)
  {
  }

  /** One non-interacting iteration replaces the next hunk's range. */
  lemma CleanStep(anc: seq<string>, pos: nat, h: Hunk, p: Piece, rest: seq<Piece>, hunks: seq<Hunk>)
    requires pos <= h.ancStart <= h.ancEnd <= |anc|
    requires p == TakeLocal(h) || p == TakeRemote(h) || p == Agreed(h, h)
    requires Ordered(hunks, h.ancEnd, |anc|) && Merged(anc, rest) == Apply(anc, h.ancEnd, hunks)
    requires Clashless(rest)
    ensures Ordered([h] + hunks, pos, |anc|)
    ensures Merged(anc, KeepTo(pos, h.ancStart) + [p] + rest) == Apply(anc, pos, [h] + hunks)
    ensures Clashless(KeepTo(pos, h.ancStart) + [p] + rest)
  {
    ConsParts(h, hunks);
    CleanMerged(anc, pos, h.ancStart, p, rest);
    ConcatAssociative(anc[pos..h.ancStart], h.lines, Merged(anc, rest));
  }

  predicate Clashless(pieces: seq<Piece>) {
    forall k :: 0 <= k < |pieces| ==> !pieces[k].Clash?
  }

  lemma CleanMerged(anc: seq<string>, pos: nat, next: nat, p: Piece, rest: seq<Piece>)
    requires pos <= next <= |anc|
    ensures Merged(anc, KeepTo(pos, next) + [p] + rest) == anc[pos..next] + (Emit(anc, p) + Merged(anc, rest))
  {
    var kept := KeepTo(pos, next);
    ConcatAssociative(kept, [p], rest);
    MergedAppend(anc, kept, [p] + rest);
    assert ([p] + rest)[1..] == rest && [Keep(pos, next)][1..] == [];
    assert Merged(anc, kept) == anc[pos..next];
  }

  lemma CleanHeads(local: seq<Hunk>, remote: seq<Hunk>, pos: nat, n: nat)
    requires local != [] || remote != []
    requires Ordered(local, pos, n) && Ordered(remote, pos, n) && NoInteraction(local, remote)
    ensures !Interacting(local, remote)
    ensures var first := LocalFirst(local, remote);
      var h := if first then local[0] else remote[0];
      var ls, rs := if first then local[1..] else local, if first then remote else remote[1..];
      && Ordered(ls, h.ancEnd, n) && Ordered(rs, h.ancEnd, n) && NoInteraction(ls, rs)
      && NextChange(local, remote) == h.ancStart
  {
    if local != [] && remote != [] {
      var h := if LocalFirst(local, remote) then local[0] else remote[0];
      assert local[0] in local && remote[0] in remote;
      FirstEndsFirst(local[0], remote[0]);
      if LocalFirst(local, remote) {
        OrderedLater(remote, pos, h.ancEnd, n);
      } else {
        OrderedLater(local, pos, h.ancEnd, n);
      }
    }
  }

  /** The merge from `pos` on has no conflict and applies both lists. */
  ghost predicate AppliesBoth(anc: seq<string>, local: seq<Hunk>, remote: seq<Hunk>, pos: nat) {
    var pieces, both := Weave(local, remote, pos, |anc|), Interleave(local, remote);
    && Ordered(both, pos, |anc|)
    && Merged(anc, pieces) == Apply(anc, pos, both)
    && Clashless(pieces)
  }

  lemma AppliesBothStep(anc: seq<string>, local: seq<Hunk>, remote: seq<Hunk>, pos: nat)
    requires local != [] || remote != []
    requires !Interacting(local, remote)
    requires var first := LocalFirst(local, remote);
      var h := if first then local[0] else remote[0];
      && pos <= h.ancStart <= h.ancEnd <= |anc| && NextChange(local, remote) == h.ancStart
      && AppliesBoth(anc, if first then local[1..] else local, if first then remote else remote[1..], h.ancEnd)
    ensures AppliesBoth(anc, local, remote, pos)
  {
    var first := LocalFirst(local, remote);
    var h := if first then local[0] else remote[0];
    var ls, rs := if first then local[1..] else local, if first then remote else remote[1..];
    WeaveOnce(local, remote, pos, |anc|);
    InterleaveStep(local, remote);
    CleanStep(anc, pos, h, NextPiece(local, remote), Weave(ls, rs, h.ancEnd, |anc|), Interleave(ls, rs));
  }

  lemma {:induction false} WeaveClean(anc: seq<string>, local: seq<Hunk>, remote: seq<Hunk>, pos: nat)
    requires Ordered(local, pos, |anc|) && Ordered(remote, pos, |anc|) && NoInteraction(local, remote)
    ensures AppliesBoth(anc, local, remote, pos)
    decreases |local| + |remote|
  {
    if local == [] && remote == [] {
      if pos < |anc| {
        assert [Keep(pos, |anc|)][1..] == [];
        assert anc[pos..|anc|] + [] == anc[pos..];
      }
    } else {
      var first := LocalFirst(local, remote);
      var h := if first then local[0] else remote[0];
      CleanHeads(local, remote, pos, |anc|);
      WeaveClean(anc, if first then local[1..] else local, if first then remote else remote[1..], h.ancEnd);
      AppliesBothStep(anc, local, remote, pos);
    }
  }

  lemma {:induction false} OrderedAfter(hunks: seq<Hunk>, from: nat, n: nat, j: nat)
    requires Ordered(hunks, from, n) && j < |hunks|
    ensures from <= hunks[j].ancStart <= hunks[j].ancEnd
  {
    if j > 0 {
      OrderedAfter(hunks[1..], hunks[0].ancEnd, n, j - 1);
    }
  }

  /** Inside the list, a gap takes at most one insertion. */
  ghost predicate OnePerGap(hunks: seq<Hunk>) {
    forall h, k :: h in hunks && k in hunks && SameGap(h, k) ==> h == k
  }

  lemma OrderedHead(us: seq<Hunk>, vs: seq<Hunk>, from: nat, n: nat)
    requires us != [] && vs != [] && Ordered(us, from, n) && Ordered(vs, from, n)
    requires us[0] in vs && vs[0] in us && OnePerGap(us)
    ensures us[0] == vs[0]
  {
    assert us[0] in us;
    var j: nat :| j < |vs| && vs[j] == us[0];
    var k: nat :| k < |us| && us[k] == vs[0];
    if j > 0 && k > 0 {
      OrderedAfter(vs[1..], vs[0].ancEnd, n, j - 1);
      OrderedAfter(us[1..], us[0].ancEnd, n, k - 1);
      assert SameGap(us[0], us[k]);
    }
  }

  lemma MultisetCons<T>(us: seq<T>)
    requires us != []
    ensures multiset(us) == multiset{us[0]} + multiset(us[1..]) && us[0] in multiset(us)
  {
    assert us == [us[0]] + us[1..];
  }

  lemma SameMultisetTails<T>(us: seq<T>, vs: seq<T>)
    requires us != [] && multiset(us) == multiset(vs)
    ensures vs != [] && us[0] in vs && vs[0] in us
    ensures us[0] == vs[0] ==> multiset(us[1..]) == multiset(vs[1..])
  {
    MultisetCons(us);
    assert us[0] in multiset(vs);
    MultisetCons(vs);
    if us[0] == vs[0] {
      MultisetCancel(us[0], multiset(us[1..]), multiset(vs[1..]));
    }
  }

  lemma MultisetCancel<T>(x: T, us: multiset<T>, vs: multiset<T>)
    requires multiset{x} + us == multiset{x} + vs
    ensures us == vs
  {
    assert us == (multiset{x} + us) - multiset{x};
    assert vs == (multiset{x} + vs) - multiset{x};
  }

  /** A set of hunks can be put in order in one way only. */
  lemma {:induction false} OrderedIsUnique(us: seq<Hunk>, vs: seq<Hunk>, from: nat, n: nat)
    requires Ordered(us, from, n) && Ordered(vs, from, n) && OnePerGap(us)
    requires multiset(us) == multiset(vs)
    ensures us == vs
  {
    if us == [] {
      assert |vs| == |multiset(vs)| == 0;
    } else {
      SameMultisetTails(us, vs);
      OrderedHead(us, vs, from, n);
      OrderedIsUnique(us[1..], vs[1..], us[0].ancEnd, n);
    }
  }

  lemma {:induction false} SeparatedOnePerGap(hunks: seq<Hunk>, from: nat, n: nat, i: nat, j: nat)
    requires Ordered(hunks, from, n) && Separated(hunks) && i < |hunks| && j < |hunks|
    ensures SameGap(hunks[i], hunks[j]) ==> i == j
  {
    if i > 0 && j > 0 {
      SeparatedOnePerGap(hunks[1..], hunks[0].ancEnd, n, i - 1, j - 1);
    } else if i != j {
      assert hunks[0].ancEnd < hunks[1].ancStart;
      OrderedAfter(hunks[1..], hunks[0].ancEnd, n, i + j - 1);
      OrderedLater(hunks[1..], hunks[0].ancEnd, hunks[1].ancStart, n);
      OrderedAfter(hunks[1..], hunks[1].ancStart, n, i + j - 1);
    }
  }

  lemma SameGapInteracts(l: Hunk, r: Hunk)
    requires SameGap(l, r)
    ensures HunksInteract(l, r)
  {
  }

  lemma UnionOnePerGap(local: seq<Hunk>, remote: seq<Hunk>, us: seq<Hunk>, n: nat)
    requires Ordered(local, 0, n) && Separated(local) && Ordered(remote, 0, n) && Separated(remote)
    requires NoInteraction(local, remote) && multiset(us) == multiset(local) + multiset(remote)
    ensures OnePerGap(us)
  {
    forall h, k | h in us && k in us && SameGap(h, k) ensures h == k {
      assert h in multiset(us) && k in multiset(us);
      assert h in local || h in remote;
      assert k in local || k in remote;
      if h in local && k in local {
        var i, j :| 0 <= i < |local| && 0 <= j < |local| && local[i] == h && local[j] == k;
        SeparatedOnePerGap(local, 0, n, i, j);
      } else if h in remote && k in remote {
        var i, j :| 0 <= i < |remote| && 0 <= j < |remote| && remote[i] == h && remote[j] == k;
        SeparatedOnePerGap(remote, 0, n, i, j);
      } else if h in local {
        SameGapInteracts(h, k);
      } else {
        SameGapInteracts(k, h);
      }
    }
  }

  /**
   * If no local hunk interacts with any remote hunk, the merge has no conflict and equals applying
   * both hunk sets to the ancestor, whichever way the two sets are put in order.
   */
  lemma CleanMergeAppliesBoth(anc: seq<string>, local: seq<Hunk>, remote: seq<Hunk>, both: seq<Hunk>)
    requires Ordered(local, 0, |anc|) && Separated(local) && Ordered(remote, 0, |anc|) && Separated(remote)
    requires NoInteraction(local, remote)
    requires Ordered(both, 0, |anc|) && multiset(both) == multiset(local) + multiset(remote)
    ensures MergeHunks(anc, local, remote) == MergeResult(Apply(anc, 0, both), [], false)
  {
    WeaveClean(anc, local, remote, 0);
    ClashlessIff(anc, Weave(local, remote, 0, |anc|), 0);
    InterleaveOrdered(local, remote, 0, |anc|);
    UnionOnePerGap(local, remote, both, |anc|);
    OrderedIsUnique(both, Interleave(local, remote), 0, |anc|);
  }

  /** Such an order always exists. */
  lemma BothSetsCanBeOrdered(anc: seq<string>, local: seq<Hunk>, remote: seq<Hunk>)
    requires Ordered(local, 0, |anc|) && Ordered(remote, 0, |anc|) && NoInteraction(local, remote)
    ensures exists both :: Ordered(both, 0, |anc|) && multiset(both) == multiset(local) + multiset(remote)
  {
    InterleaveOrdered(local, remote, 0, |anc|);
  }

  lemma {:induction false} WeaveSelf(anc: seq<string>, hunks: seq<Hunk>, pos: nat)
    requires Ordered(hunks, pos, |anc|)
    ensures Merged(anc, Weave(hunks, hunks, pos, |anc|)) == Apply(anc, pos, hunks) && Clashless(Weave(hunks, hunks, pos, |anc|))
    decreases |hunks|
  {
    if hunks == [] {
      if pos < |anc| {
        assert [Keep(pos, |anc|)][1..] == [];
        NilConcat(anc[pos..]);
      }
    } else {
      var h, rest := hunks[0], hunks[1..];
      WeaveSelf(anc, rest, h.ancEnd);
      SelfPiece(hunks, pos, |anc|);
      CleanStep(anc, pos, h, Agreed(h, h), Weave(rest, rest, h.ancEnd, |anc|), rest);
      ConsAppend(hunks, []);
    }
  }

  lemma SelfPiece(hunks: seq<Hunk>, pos: nat, n: nat)
    requires hunks != [] && Ordered(hunks, pos, n)
    ensures var h, rest := hunks[0], hunks[1..];
      Weave(hunks, hunks, pos, n) == KeepTo(pos, h.ancStart) + [Agreed(h, h)] + Weave(rest, rest, h.ancEnd, n)
  {
    WeaveOnce(hunks, hunks, pos, n);
  }

  /** The same change on both sides is applied once. */
  lemma SameChangeOnce(anc: seq<string>, hunks: seq<Hunk>)
    requires Ordered(hunks, 0, |anc|)
    ensures MergeHunks(anc, hunks, hunks) == MergeResult(Apply(anc, 0, hunks), [], false)
  {
    WeaveSelf(anc, hunks, 0);
    ClashlessIff(anc, Weave(hunks, hunks, 0, |anc|), 0);
  }

  /** A side that changed nothing leaves the other side's text, from the diffs themselves. */
  lemma OneSidedMerge(anc: seq<string>, variant: seq<string>, diff: seq<DiffOp>)
    requires Spells(diff, anc, variant) && Coalesced(diff)
    ensures MergeHunks(anc, HunksFrom(diff, 0, None), []) == MergeResult(variant, [], false)
    ensures MergeHunks(anc, [], HunksFrom(diff, 0, None)) == MergeResult(variant, [], false)
  {
    HunksMeanVariant(anc, variant, diff);
    var hunks := HunksFrom(diff, 0, None);
    assert Ordered([], 0, |anc|);
    CleanMergeAppliesBoth(anc, hunks, [], hunks);
    CleanMergeAppliesBoth(anc, [], hunks, hunks);
  }
}
