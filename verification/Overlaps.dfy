/**
 * Which hunks of the two sides the merge takes as a pair, and so which overlapping changes end in a
 * conflict: the cursors pair greedily, and a hunk that has met one partner meets no other.
 */
module Overlaps {
  import opened Base
  import opened ThreeWay
  import opened ThreeWayLaws

  /** Two hunks meet where both replace a line, where both insert at one gap, or where one inserts among lines the other replaces. */
  lemma InteractIff(x: Hunk, y: Hunk)
    ensures HunksInteract(x, y) <==>
      || (exists i: nat :: Replaces(x, i) && Replaces(y, i))
      || SameGap(x, y)
      || (IsInsert(x) && y.ancStart < x.ancStart < y.ancEnd)
      || (IsInsert(y) && x.ancStart < y.ancStart < x.ancEnd)
  {
    if Max(x.ancStart, y.ancStart) < Min(x.ancEnd, y.ancEnd) {
      var i := Max(x.ancStart, y.ancStart);
      assert Replaces(x, i) && Replaces(y, i);
    }
  }

  ghost predicate Replaces(h: Hunk, i: nat) {
    h.ancStart <= i < h.ancEnd
  }

  /** Ascending hunks of one side, none touching the next. */
  ghost predicate Apart(hunks: seq<Hunk>) {
    && (forall a :: 0 <= a < |hunks| ==> hunks[a].ancStart <= hunks[a].ancEnd)
    && (forall a, b :: 0 <= a < b < |hunks| ==> hunks[a].ancEnd < hunks[b].ancStart)
  }

  lemma {:induction false} SeparatedIsApart(hunks: seq<Hunk>, n: nat)
    requires Pending(hunks, n) && Separated(hunks)
    ensures Apart(hunks)
    decreases |hunks|
  {
    if hunks != [] {
      PendingTail(hunks, n);
      StartsAfterHead(hunks, n, 0);
      SeparatedIsApart(hunks[1..], n);
      forall b | 0 < b < |hunks| ensures hunks[0].ancEnd < hunks[b].ancStart {
        StartsAfterHead(hunks, n, b);
      }
      assert forall a :: 0 < a < |hunks| ==> hunks[a] == hunks[1..][a - 1];
    }
  }

  /** Two hunks meet: they interact, and neither has met an earlier hunk of the other side. */
  predicate Partners(local: seq<Hunk>, remote: seq<Hunk>, i: nat, j: nat)
    requires i < |local| && j < |remote|
    decreases i + j
  {
    && HunksInteract(local[i], remote[j])
    && (forall k: nat :: k < j ==> !Partners(local, remote, i, k))
    && (forall k: nat :: k < i ==> !Partners(local, remote, k, j))
  }

  // ----------------------------------------------------------- one iteration

  /** A hunk taken alone interacts with none of the hunks still to come. */
  lemma AloneMeetsNone(local: seq<Hunk>, remote: seq<Hunk>, k: nat)
    requires Apart(local) && Apart(remote) && !Interacting(local, remote)
    ensures local != [] && LocalFirst(local, remote) && k < |remote| ==> !HunksInteract(local[0], remote[k])
    ensures remote != [] && !LocalFirst(local, remote) && k < |local| ==> !HunksInteract(local[k], remote[0])
  {
    if local != [] && remote != [] {
      FirstEndsFirst(local[0], remote[0]);
      assert k > 0 && k < |remote| ==> remote[0].ancEnd < remote[k].ancStart;
      assert k > 0 && k < |local| ==> local[0].ancEnd < local[k].ancStart;
    }
  }

  /** How many hunks of a side an iteration takes. */
  function Taken(hunks: seq<Hunk>, rest: seq<Hunk>): int {
    |hunks| - |rest|
  }

  /** Of the hunks an iteration takes, only an interacting pair of heads are partners. */
  lemma HeadsMeet(local: seq<Hunk>, remote: seq<Hunk>, i: nat, j: nat)
    requires Apart(local) && Apart(remote) && i < |local| && j < |remote|
    requires i < Taken(local, NextLocal(local, remote)) || j < Taken(remote, NextRemote(local, remote))
    ensures Partners(local, remote, i, j) <==> i == 0 && j == 0 && Interacting(local, remote)
  {
    if Interacting(local, remote) {
      assert Partners(local, remote, 0, 0);
    } else {
      AloneMeetsNone(local, remote, if i == 0 && LocalFirst(local, remote) then j else i);
    }
  }

  /** The partners among the other hunks are those of the lists the iteration leaves. */
  lemma {:induction false} PartnersLater(local: seq<Hunk>, remote: seq<Hunk>, a: nat, b: nat, i: nat, j: nat)
    requires Apart(local) && Apart(remote) && i < |local| && j < |remote|
    requires a == Taken(local, NextLocal(local, remote)) <= i && b == Taken(remote, NextRemote(local, remote)) <= j
    ensures AsLater(local, remote, NextLocal(local, remote), NextRemote(local, remote), a, b, i, j)
    decreases i + j
  {
    var ls, rs := NextLocal(local, remote), NextRemote(local, remote);
    assert ls == local[a..] && rs == remote[b..];
    forall k: nat | k < j ensures AsLater(local, remote, ls, rs, a, b, i, k) {
      if k < b {
        HeadsMeet(local, remote, i, k);
      } else {
        PartnersLater(local, remote, a, b, i, k);
      }
    }
    forall k: nat | k < i ensures AsLater(local, remote, ls, rs, a, b, k, j) {
      if k < a {
        HeadsMeet(local, remote, k, j);
      } else {
        PartnersLater(local, remote, a, b, k, j);
      }
    }
    PartnersShift(local, remote, ls, rs, a, b, i, j);
  }

  /** Partnership with a hunk that is taken now, or with one that comes later. */
  predicate AsLater(local: seq<Hunk>, remote: seq<Hunk>, ls: seq<Hunk>, rs: seq<Hunk>, a: nat, b: nat, i: nat, j: nat)
    requires i < |local| && j < |remote| && |ls| == |local| - a && |rs| == |remote| - b
  {
    if i < a || j < b then !Partners(local, remote, i, j)
    else Partners(local, remote, i, j) <==> Partners(ls, rs, i - a, j - b)
  }

  lemma PartnersShift(
    local: seq<Hunk>, remote: seq<Hunk>, ls: seq<Hunk>, rs: seq<Hunk>, a: nat, b: nat, i: nat, j: nat)
    requires a <= i < |local| && b <= j < |remote| && ls == local[a..] && rs == remote[b..]
    requires forall k: nat :: k < j ==> AsLater(local, remote, ls, rs, a, b, i, k)
    requires forall k: nat :: k < i ==> AsLater(local, remote, ls, rs, a, b, k, j)
    ensures AsLater(local, remote, ls, rs, a, b, i, j)
  {
    var i': nat, j': nat := i - a, j - b;
    if Partners(local, remote, i, j) {
      forall k: nat | k < j' ensures !Partners(ls, rs, i', k) {
        assert AsLater(local, remote, ls, rs, a, b, i, k + b);
      }
      forall k: nat | k < i' ensures !Partners(ls, rs, k, j') {
        assert AsLater(local, remote, ls, rs, a, b, k + a, j);
      }
    }
    if Partners(ls, rs, i', j') {
      forall k: nat | k < j ensures !Partners(local, remote, i, k) {
        assert AsLater(local, remote, ls, rs, a, b, i, k);
      }
      forall k: nat | k < i ensures !Partners(local, remote, k, j) {
        assert AsLater(local, remote, ls, rs, a, b, k, j);
      }
    }
  }

  // --------------------------------------------------------------- all iterations

  lemma {:induction false} JointFrom(local: seq<Hunk>, remote: seq<Hunk>, pos: nat, n: nat, l: Hunk, r: Hunk)
    ensures Joint(l, r) in Weave(local, remote, pos, n) ==> l in local && r in remote
    decreases |local| + |remote|
  {
    if local != [] || remote != [] {
      WeaveHas(local, remote, pos, n, Joint(l, r));
      JointFrom(NextLocal(local, remote), NextRemote(local, remote),
        NextPos(local, remote, Max(pos, NextChange(local, remote))), n, l, r);
    }
  }

  lemma NotAgain(hunks: seq<Hunk>, i: nat, j: nat)
    requires Apart(hunks) && i < |hunks| && j < |hunks|
    ensures hunks[i] == hunks[j] ==> i == j
    ensures i == 0 ==> hunks[i] !in hunks[1..]
  {
    assert forall a :: 0 < a < |hunks| ==> hunks[a] == hunks[1..][a - 1];
  }

  lemma ApartTail(hunks: seq<Hunk>, rest: seq<Hunk>)
    requires Apart(hunks) && (rest == hunks || (hunks != [] && rest == hunks[1..]))
    ensures Apart(rest)
  {
  }

  /** The next piece is a pair exactly if it is the pair of interacting heads. */
  lemma NextIsJoint(local: seq<Hunk>, remote: seq<Hunk>, i: nat, j: nat)
    requires Apart(local) && Apart(remote) && i < |local| && j < |remote|
    ensures Joint(local[i], remote[j]) == NextPiece(local, remote) <==> i == 0 && j == 0 && Interacting(local, remote)
  {
    NotAgain(local, i, 0);
    NotAgain(remote, j, 0);
  }

  /** A pair with a hunk the iteration takes does not come again. */
  lemma TakenOnce(local: seq<Hunk>, remote: seq<Hunk>, end: nat, n: nat, i: nat, j: nat)
    requires Apart(local) && Apart(remote) && i < |local| && j < |remote|
    requires i < Taken(local, NextLocal(local, remote)) || j < Taken(remote, NextRemote(local, remote))
    ensures Joint(local[i], remote[j]) !in Weave(NextLocal(local, remote), NextRemote(local, remote), end, n)
  {
    NotAgain(local, i, 0);
    NotAgain(remote, j, 0);
    JointFrom(NextLocal(local, remote), NextRemote(local, remote), end, n, local[i], remote[j]);
  }

  /** The cursors take two hunks together. */
  ghost predicate Meet(local: seq<Hunk>, remote: seq<Hunk>, pos: nat, n: nat, i: nat, j: nat)
    requires i < |local| && j < |remote|
  {
    Joint(local[i], remote[j]) in Weave(local, remote, pos, n)
  }

  lemma MeetNow(local: seq<Hunk>, remote: seq<Hunk>, pos: nat, n: nat, i: nat, j: nat)
    requires Apart(local) && Apart(remote) && i < |local| && j < |remote|
    requires i < Taken(local, NextLocal(local, remote)) || j < Taken(remote, NextRemote(local, remote))
    ensures Meet(local, remote, pos, n, i, j) <==> i == 0 && j == 0 && Interacting(local, remote)
  {
    WeaveHas(local, remote, pos, n, Joint(local[i], remote[j]));
    NextIsJoint(local, remote, i, j);
    TakenOnce(local, remote, NextPos(local, remote, Max(pos, NextChange(local, remote))), n, i, j);
  }

  lemma StillThere(hunks: seq<Hunk>, rest: seq<Hunk>, i: nat, i': nat)
    requires i < |hunks| && (rest == hunks || rest == hunks[1..]) && i' == i - Taken(hunks, rest)
    ensures rest[i'] == hunks[i]
  {
  }

  lemma MeetLater(local: seq<Hunk>, remote: seq<Hunk>, pos: nat, n: nat, i: nat, j: nat, end: nat, i': nat, j': nat)
    requires Apart(local) && Apart(remote) && i < |local| && j < |remote|
    requires i' == i - Taken(local, NextLocal(local, remote)) && j' == j - Taken(remote, NextRemote(local, remote))
    requires end == NextPos(local, remote, Max(pos, NextChange(local, remote)))
    ensures Meet(local, remote, pos, n, i, j) <==> Meet(NextLocal(local, remote), NextRemote(local, remote), end, n, i', j')
  {
    var ls, rs := NextLocal(local, remote), NextRemote(local, remote);
    WeaveHas(local, remote, pos, n, Joint(local[i], remote[j]));
    NextIsJoint(local, remote, i, j);
    StillThere(local, ls, i, i');
    StillThere(remote, rs, j, j');
  }

  lemma PartnersMeetLater(
    local: seq<Hunk>, remote: seq<Hunk>, ls: seq<Hunk>, rs: seq<Hunk>, pos: nat, n: nat, i: nat, j: nat, end: nat, i': nat, j': nat)
    requires Apart(local) && Apart(remote) && i < |local| && j < |remote|
    requires ls == NextLocal(local, remote) && rs == NextRemote(local, remote)
    requires i' == i - Taken(local, ls) && j' == j - Taken(remote, rs)
    requires end == NextPos(local, remote, Max(pos, NextChange(local, remote)))
    requires Meet(ls, rs, end, n, i', j') <==> Partners(ls, rs, i', j')
    ensures Meet(local, remote, pos, n, i, j) <==> Partners(local, remote, i, j)
  {
    PartnersLater(local, remote, Taken(local, ls), Taken(remote, rs), i, j);
    MeetLater(local, remote, pos, n, i, j, end, i', j');
  }

  /** The cursors take two hunks together exactly if they are partners. */
  lemma {:induction false} PartnersMeet(local: seq<Hunk>, remote: seq<Hunk>, pos: nat, n: nat, i: nat, j: nat)
    requires Apart(local) && Apart(remote) && i < |local| && j < |remote|
    ensures Meet(local, remote, pos, n, i, j) <==> Partners(local, remote, i, j)
    decreases |local| + |remote|
  {
    var ls, rs := NextLocal(local, remote), NextRemote(local, remote);
    var end := NextPos(local, remote, Max(pos, NextChange(local, remote)));
    var i', j' := i - Taken(local, ls), j - Taken(remote, rs);
    if i' < 0 || j' < 0 {
      HeadsMeet(local, remote, i, j);
      MeetNow(local, remote, pos, n, i, j);
    } else {
      ApartTail(local, ls);
      ApartTail(remote, rs);
      PartnersMeet(ls, rs, end, n, i', j');
      PartnersMeetLater(local, remote, ls, rs, pos, n, i, j, end, i', j');
    }
  }

  /** A piece of two hunks is what the merge makes of such a pair. */
  lemma {:induction false} PairIsJoint(local: seq<Hunk>, remote: seq<Hunk>, pos: nat, n: nat, p: Piece)
    requires p in Weave(local, remote, pos, n) && (p.Agreed? || p.Union? || p.Clash?)
    ensures p == Joint(p.l, p.r)
    decreases |local| + |remote|
  {
    if local != [] || remote != [] {
      WeaveHas(local, remote, pos, n, p);
      if p != NextPiece(local, remote) {
        PairIsJoint(NextLocal(local, remote), NextRemote(local, remote),
          NextPos(local, remote, Max(pos, NextChange(local, remote))), n, p);
      }
    }
  }

  /** The two hunks of such a piece are partners. */
  lemma PairIsPartners(local: seq<Hunk>, remote: seq<Hunk>, pos: nat, n: nat, p: Piece) returns (i: nat, j: nat)
    requires Apart(local) && Apart(remote)
    requires p in Weave(local, remote, pos, n) && (p.Agreed? || p.Union? || p.Clash?)
    ensures i < |local| && j < |remote| && p.l == local[i] && p.r == remote[j] && Partners(local, remote, i, j)
  {
    PairIsJoint(local, remote, pos, n, p);
    JointFrom(local, remote, pos, n, p.l, p.r);
    i :| 0 <= i < |local| && local[i] == p.l;
    j :| 0 <= j < |remote| && remote[j] == p.r;
    PartnersMeet(local, remote, pos, n, i, j);
  }

  /** A hunk without a partner is applied alone, whatever it overlaps. */
  lemma AloneWithoutPartner(local: seq<Hunk>, remote: seq<Hunk>, pos: nat, n: nat, k: nat)
    requires Apart(local) && Apart(remote)
    ensures k < |remote| && (forall i: nat :: i < |local| ==> !Partners(local, remote, i, k)) ==>
      TakeRemote(remote[k]) in Weave(local, remote, pos, n)
    ensures k < |local| && (forall j: nat :: j < |remote| ==> !Partners(local, remote, k, j)) ==>
      TakeLocal(local[k]) in Weave(local, remote, pos, n)
  {
    var pieces := Weave(local, remote, pos, n);
    EveryHunkOnce(local, remote, pos, n);
    if k < |remote| {
      var t := RemoteHunkPiece(pieces, k);
      if !pieces[t].TakeRemote? {
        var i, j := PairIsPartners(local, remote, pos, n, pieces[t]);
        NotAgain(remote, j, k);
      }
    }
    if k < |local| {
      var t := LocalHunkPiece(pieces, k);
      if !pieces[t].TakeLocal? {
        var i, j := PairIsPartners(local, remote, pos, n, pieces[t]);
        NotAgain(local, i, k);
      }
    }
  }

  // -------------------------------------------------------------------- conflicts

  /** Partners with different lines, other than two insertions at one gap. */
  ghost predicate Clashing(local: seq<Hunk>, remote: seq<Hunk>, i: nat, j: nat) {
    && i < |local| && j < |remote| && Partners(local, remote, i, j)
    && local[i].lines != remote[j].lines && !SameGap(local[i], remote[j])
  }

  /** The chunk of two clashing hunks, wherever it starts. */
  ghost predicate ChunkFor(anc: seq<string>, l: Hunk, r: Hunk, c: ConflictChunk) {
    exists start: nat :: c == ChunkOf(anc, l, r, start)
  }

  lemma {:induction false} ChunkOfClash(anc: seq<string>, pieces: seq<Piece>, start: nat, l: Hunk, r: Hunk)
    returns (c: ConflictChunk)
    requires Clash(l, r) in pieces
    ensures c in Chunks(anc, pieces, start) && ChunkFor(anc, l, r, c)
    decreases |pieces|
  {
    var next := start + |Emit(anc, pieces[0])|;
    var here, later := ChunkAt(anc, pieces[0], start), Chunks(anc, pieces[1..], next);
    assert Chunks(anc, pieces, start) == here + later;
    if pieces[0] == Clash(l, r) {
      c := ChunkOf(anc, l, r, start);
      assert here == [c];
      InEither(here, later, c);
    } else {
      c := ChunkOfClash(anc, pieces[1..], next, l, r);
      InEither(here, later, c);
    }
  }

  lemma InEither<T>(xs: seq<T>, ys: seq<T>, x: T)
    requires x in xs || x in ys
    ensures x in xs + ys
  {
  }

  lemma {:induction false} ClashOfChunk(anc: seq<string>, pieces: seq<Piece>, start: nat, c: ConflictChunk)
    returns (l: Hunk, r: Hunk)
    requires c in Chunks(anc, pieces, start)
    ensures Clash(l, r) in pieces && ChunkFor(anc, l, r, c)
    decreases |pieces|
  {
    if c in ChunkAt(anc, pieces[0], start) {
      l, r := pieces[0].l, pieces[0].r;
    } else {
      l, r := ClashOfChunk(anc, pieces[1..], start + |Emit(anc, pieces[0])|, c);
    }
  }

  /** One of two hunks was taken with an earlier hunk of the other side. */
  predicate Spoken(local: seq<Hunk>, remote: seq<Hunk>, i: nat, j: nat)
    requires i < |local| && j < |remote|
  {
    || (exists k: nat :: k < j && Partners(local, remote, i, k))
    || (exists k: nat :: k < i && Partners(local, remote, k, j))
  }

  /**
   * Two changes that overlap and differ end in a conflict exactly if neither was taken with an earlier
   * partner; if one was, they are not compared, and the other one finds a later partner or is applied alone.
   */
  lemma OverlapClashesIff(anc: seq<string>, local: seq<Hunk>, remote: seq<Hunk>, i: nat, j: nat)
    requires Pending(local, |anc|) && Separated(local) && Pending(remote, |anc|) && Separated(remote)
    requires i < |local| && j < |remote| && HunksInteract(local[i], remote[j])
    requires local[i].lines != remote[j].lines && !SameGap(local[i], remote[j])
    ensures Clash(local[i], remote[j]) in Weave(local, remote, 0, |anc|) <==> !Spoken(local, remote, i, j)
    ensures !Spoken(local, remote, i, j) ==>
      exists c :: c in MergeHunks(anc, local, remote).conflicts && ChunkFor(anc, local[i], remote[j], c)
    ensures (forall k: nat :: k < |local| ==> !Partners(local, remote, k, j)) ==>
      TakeRemote(remote[j]) in Weave(local, remote, 0, |anc|)
    ensures (forall k: nat :: k < |remote| ==> !Partners(local, remote, i, k)) ==>
      TakeLocal(local[i]) in Weave(local, remote, 0, |anc|)
  {
    SeparatedIsApart(local, |anc|);
    SeparatedIsApart(remote, |anc|);
    PartnersMeet(local, remote, 0, |anc|, i, j);
    AloneWithoutPartner(local, remote, 0, |anc|, i);
    AloneWithoutPartner(local, remote, 0, |anc|, j);
    if !Spoken(local, remote, i, j) {
      var c := ClashIsConflict(anc, local, remote, i, j);
    }
  }

  /** Each conflict is the chunk of a clashing pair. */
  lemma ConflictIsClash(anc: seq<string>, local: seq<Hunk>, remote: seq<Hunk>, c: ConflictChunk) returns (i: nat, j: nat)
    requires Pending(local, |anc|) && Separated(local) && Pending(remote, |anc|) && Separated(remote)
    requires c in MergeHunks(anc, local, remote).conflicts
    ensures Clashing(local, remote, i, j) && ChunkFor(anc, local[i], remote[j], c)
  {
    SeparatedIsApart(local, |anc|);
    SeparatedIsApart(remote, |anc|);
    var l, r := ClashOfChunk(anc, Weave(local, remote, 0, |anc|), 0, c);
    PairIsJoint(local, remote, 0, |anc|, Clash(l, r));
    i, j := PairIsPartners(local, remote, 0, |anc|, Clash(l, r));
  }

  /** Each clashing pair has its chunk among the conflicts. */
  lemma ClashIsConflict(anc: seq<string>, local: seq<Hunk>, remote: seq<Hunk>, i: nat, j: nat) returns (c: ConflictChunk)
    requires Pending(local, |anc|) && Separated(local) && Pending(remote, |anc|) && Separated(remote)
    requires Clashing(local, remote, i, j)
    ensures c in MergeHunks(anc, local, remote).conflicts && ChunkFor(anc, local[i], remote[j], c)
  {
    SeparatedIsApart(local, |anc|);
    SeparatedIsApart(remote, |anc|);
    PartnersMeet(local, remote, 0, |anc|, i, j);
    c := ChunkOfClash(anc, Weave(local, remote, 0, |anc|), 0, local[i], remote[j]);
  }

  /** A merge has conflicts exactly if a pair of partners clashes. */
  lemma ConflictsIff(anc: seq<string>, local: seq<Hunk>, remote: seq<Hunk>)
    requires Pending(local, |anc|) && Separated(local) && Pending(remote, |anc|) && Separated(remote)
    ensures MergeHunks(anc, local, remote).hasConflicts <==> exists i: nat, j: nat :: Clashing(local, remote, i, j)
  {
    var conflicts := MergeHunks(anc, local, remote).conflicts;
    if conflicts != [] {
      var i, j := ConflictIsClash(anc, local, remote, conflicts[0]);
    }
    if i: nat, j: nat :| Clashing(local, remote, i, j) {
      var c := ClashIsConflict(anc, local, remote, i, j);
    }
  }

  /**
   * So an overlap can go unreported. One device replaced a, b, c by X, the other a by X and c by Y: the
   * two X agree, and Y is then written over the deletion of c that it overlaps, without a conflict.
   */
  lemma OverlapGoesUnreported()
    ensures var anc, l, r := ["a", "b", "c"], [Hunk(0, 3, ["X"])], [Hunk(0, 1, ["X"]), Hunk(2, 3, ["Y"])];
      && HunksInteract(l[0], r[1]) && l[0].lines != r[1].lines
      && Apply(anc, 0, l) == ["X"] && Apply(anc, 0, r) == ["X", "b", "Y"]
      && MergeHunks(anc, l, r) == MergeResult(["X", "Y"], [], false)
  {
    var anc, x, y := ["a", "b", "c"], ["X"], ["Y"];
    var l, r0, r1 := Hunk(0, 3, x), Hunk(0, 1, x), Hunk(2, 3, y);
    assert x[0][0] == 'X' && y[0][0] == 'Y';
    AgreedThenAlone(l, r0, r1);
    assert [Agreed(l, r0), TakeRemote(r1)][1..] == [TakeRemote(r1)] && [TakeRemote(r1)][1..] == [];
    assert Merged(anc, [TakeRemote(r1)]) == y + [] == y && x + y == ["X", "Y"];
    ClashlessIff(anc, [Agreed(l, r0), TakeRemote(r1)], 0);
    assert Apply(anc, 0, [l]) == anc[0..0] + x + anc[3..] == x;
    assert [r0, r1][1..] == [r1] && [r1][1..] == [];
    assert Apply(anc, 1, [r1]) == anc[1..2] + y + anc[3..] == ["b", "Y"];
    assert Apply(anc, 0, [r0, r1]) == anc[0..0] + x + ["b", "Y"] == ["X", "b", "Y"];
  }

  lemma AgreedThenAlone(l: Hunk, r0: Hunk, r1: Hunk)
    requires l.ancStart == r0.ancStart == 0 < r0.ancEnd < r1.ancStart < r1.ancEnd == l.ancEnd && l.lines == r0.lines
    ensures Weave([l], [r0, r1], 0, l.ancEnd) == [Agreed(l, r0), TakeRemote(r1)]
  {
    assert [l][1..] == [] && [r0, r1][1..] == [r1] && [r1][1..] == [];
    WeaveOnce([l], [r0, r1], 0, l.ancEnd);
    WeaveOnce([], [r1], l.ancEnd, l.ancEnd);
  }
}
