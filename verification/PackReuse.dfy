/**
 * Why a merge must not hand out the id of a pack it has yet to visit: the rounds of the merge as steps
 * on values, and the blobs it loses exactly when it does.
 */
module PackReuse {
  import opened Base
  import opened PackDisk
  import opened PackState

  /** Where a merge stands: the disk, the memory index, the buffer, the packs waiting for removal, the next id. */
  datatype Run = Run(disk: Disk, index: Index, items: seq<Item>, waiting: set<nat>, next: nat)

  /** The members a pack had when the merge began that are still there, kept, and verify. */
  ghost function Movable(c: Codec, m0: Index, keep: set<string>, p: nat, s: Run): set<string> {
    set h | h in Of(m0, {p}) && h in Of(s.index, {p}) && h in keep && ReadVia(c, s.disk, s.index, h).Some?
  }

  /** One pack read and its blobs buffered. */
  ghost predicate Takes(c: Codec, m0: Index, keep: set<string>, p: nat, s: Run, t: Run) {
    && p in s.disk.packs
    && t == s.(items := t.items, waiting := s.waiting + {p})
    && SoundItems(c, t.items) && |t.items| == |s.items| + |Movable(c, m0, keep, p, s)|
    && HashesOf(t.items) == HashesOf(s.items) + Movable(c, m0, keep, p, s)
  }

  /** The members of waiting packs that a flush did not lead out of them. */
  function Leftover(m0: Index, m: Index, waiting: set<nat>): set<string> {
    set h | h in Of(m0, waiting) && h in m && m[h].packId == m0[h].packId
  }

  /** `flushAndRetireDeferred`: make the buffer durable, then remove the waiting packs. */
  function FlushRun(m0: Index, s: Run): Run {
    if s.items == [] && s.waiting == {} then s
    else
      var m := Reindex(s.index, IndexDelta(s.items, s.next));
      var d := if s.items == [] then s.disk else Flushed(s.disk, s.next, s.items, |s.items|);
      Run(d.(packs := d.packs - s.waiting), m - Leftover(m0, m, s.waiting), [], {}, s.next + if s.items == [] then 0 else 1)
  }

  /** One turn of the merge loop; a pack without a file is passed over. */
  ghost predicate Round(c: Codec, m0: Index, keep: set<string>, flushEvery: nat, p: nat, s: Run, t: Run) {
    if p !in s.disk.packs then t == s
    else exists u :: Takes(c, m0, keep, p, s, u) && t == if |u.items| >= flushEvery then FlushRun(m0, u) else u
  }

  ghost predicate Rounds(c: Codec, m0: Index, keep: set<string>, flushEvery: nat, order: seq<nat>, s: Run, t: Run)
    decreases |order|
  {
    if order == [] then t == s
    else exists u :: Round(c, m0, keep, flushEvery, order[0], s, u) && Rounds(c, m0, keep, flushEvery, order[1..], u, t)
  }

  /** The merge phase of a consolidation: all rounds, and the last flush; `m0` has the members it started from. */
  ghost predicate Merges(
    c: Codec, d: Disk, m: Index, items: seq<Item>, m0: Index, next: nat, keep: set<string>, flushEvery: nat,
    order: seq<nat>, end: Run)
  {
    exists t :: Rounds(c, m0, keep, flushEvery, order, Run(d, m, items, {}, next), t) && end == FlushRun(m0, t)
  }

  // ------------------------------------------------------- the rounds of the store's own loop

  /** The disk after a flush of the buffer, if there is one, and the removal of some packs. */
  function RemovedAfter(d: Disk, items: seq<Item>, next: nat, packs: set<nat>): Disk {
    var flushed := if items == [] then d else Flushed(d, next, items, |items|);
    flushed.(packs := flushed.packs - packs)
  }

  /** In a merge without reuse, all that still points to a waiting pack is left over there. */
  lemma LeftoverIsAll(
    c: Codec, pass: Pass, d: Disk, m: Index, items: seq<Item>, next: nat, retired: set<nat>, moved: set<nat>, waiting: set<nat>)
    requires Merging(c, pass, d, m, items, next, retired, moved, waiting)
    requires PacksBelow(d, next) && SoundItems(c, items) && Within(m, LoadIndex(d.index))
    ensures var m' := Reindex(m, IndexDelta(items, next)); Leftover(pass.index, m', waiting) == Of(m', waiting)
  {
    var m' := Reindex(m, IndexDelta(items, next));
    forall h | h in Of(m', waiting) ensures h in Leftover(pass.index, m', waiting) {
      FlushEntry(c, d, m, next, items, h);
      assert OlderAt(m, pass.index, pass.next, h);
    }
  }

  lemma FlushRunIs(m0: Index, s: Run)
    ensures var m := Reindex(s.index, IndexDelta(s.items, s.next));
      s.items != [] || s.waiting != {} ==>
        FlushRun(m0, s) == Run(RemovedAfter(s.disk, s.items, s.next, s.waiting), m - Leftover(m0, m, s.waiting), [], {},
          s.next + if s.items == [] then 0 else 1)
  {
  }

  lemma MovesAll(c: Codec, m0: Index, keep: set<string>, p: nat, s: Run)
    requires Of(s.index, {p}) <= Of(m0, {p})
    ensures Movable(c, m0, keep, p, s) == Survivors(c, s.disk, s.index, keep, {p})
  {
  }

  /** A pack taken, and the flush that may follow, as a round and in the counts. */
  lemma TakenIs(
    c: Codec, pass: Pass, p: nat, flushEvery: nat, s: Merge, s1: Merge, s2: Merge, before: Run, full: Run, after: Run)
    requires Takes(c, pass.index, pass.keep, p, before, full) && pass.next <= before.next
    requires after == if |full.items| < flushEvery then full else FlushRun(pass.index, full)
    requires s1.waiting == s.waiting + {p} && s1.removed == s.removed && s1.kept >= s.kept && s1.dropped >= s.dropped
    requires s2.removed + s2.waiting == s1.removed + s1.waiting && s2.kept == s1.kept && s2.dropped == s1.dropped
    requires |full.items| == |before.items| + (s1.kept - s.kept)
    requires pass.quiet ==> (
      && p in pass.disk.packs && s1.kept - s.kept == |Survivors(c, pass.disk, pass.index, pass.keep, {p})|
      && s1.kept - s.kept + s1.dropped - s.dropped == |Of(pass.index, {p})|)
    ensures Round(c, pass.index, pass.keep, flushEvery, p, before, after) && after.next >= before.next
    ensures Took(c, pass, p, flushEvery, s, Course(pass.next, before.next, before.items), s2, Course(pass.next, after.next, after.items))
  {
    RoundCounts(pass.index, map[p := s2.kept - s.kept], flushEvery, p, pass.next, before, full);
    SetRegroup(s.removed, s.waiting, {p});
  }

  lemma SetRegroup<T>(x: set<T>, y: set<T>, z: set<T>)
    ensures x + (y + z) == (x + y) + z
  {
  }

  lemma {:induction false} RoundsSnoc(
    c: Codec, m0: Index, keep: set<string>, flushEvery: nat, order: seq<nat>, p: nat, s: Run, u: Run, t: Run)
    requires Rounds(c, m0, keep, flushEvery, order, s, u) && Round(c, m0, keep, flushEvery, p, u, t)
    ensures Rounds(c, m0, keep, flushEvery, order + [p], s, t)
    decreases |order|
  {
    if order == [] {
      NilConcat([p]);
      RoundsFront(c, m0, keep, flushEvery, [p], p, [], s, t, t);
    } else {
      var v :| Round(c, m0, keep, flushEvery, order[0], s, v) && Rounds(c, m0, keep, flushEvery, order[1..], v, u);
      RoundsSnoc(c, m0, keep, flushEvery, order[1..], p, v, u, t);
      ConsAppend(order, [p]);
      RoundsFront(c, m0, keep, flushEvery, order + [p], order[0], order[1..] + [p], s, v, t);
    }
  }

  lemma RoundsFront(
    c: Codec, m0: Index, keep: set<string>, flushEvery: nat, order: seq<nat>, p: nat, rest: seq<nat>, s: Run, u: Run, t: Run)
    requires order != [] && order[0] == p && order[1..] == rest
    requires Round(c, m0, keep, flushEvery, p, s, u) && Rounds(c, m0, keep, flushEvery, rest, u, t)
    ensures Rounds(c, m0, keep, flushEvery, order, s, t)
  {
  }

  lemma RoundsMore(
    c: Codec, m0: Index, keep: set<string>, flushEvery: nat, order: seq<nat>, k: nat, s: Run, u: Run, t: Run)
    requires k < |order| && Rounds(c, m0, keep, flushEvery, order[..k], s, u) && Round(c, m0, keep, flushEvery, order[k], u, t)
    ensures Rounds(c, m0, keep, flushEvery, order[..k + 1], s, t)
  {
    SliceSnoc(order, k);
    RoundsSnoc(c, m0, keep, flushEvery, order[..k], order[k], s, u, t);
  }

  // --------------------------------------------------------------- what every round keeps

  ghost predicate Sane(c: Codec, s: Run) {
    SoundItems(c, s.items) && PacksBelow(s.disk, s.next) && Within(s.index, LoadIndex(s.disk.index))
  }

  /** One hash across a flush: a buffered one moves to the new pack, others stay, but for members left in a removed pack. */
  lemma FlushRunEntry(c: Codec, m0: Index, s: Run, h: string)
    requires Sane(c, s)
    ensures var t := FlushRun(m0, s); var before, after := LoadIndex(s.disk.index), LoadIndex(t.disk.index);
      && EntryIn(t.index, after, h)
      && (if h in HashesOf(s.items) then
            && h in after && after[h].packId == s.next
            && (h in m0 && m0[h].packId != s.next ==> h in t.index && t.index[h].packId == s.next)
          else
            && (h in after <==> h in before) && (h in after ==> after[h] == before[h])
            && (h in t.index <==> h in s.index && !(h in m0 && m0[h].packId in s.waiting && s.index[h].packId == m0[h].packId))
            && (h in t.index ==> t.index[h] == s.index[h]))
  {
    EmptyDelta(s.next);
    assert EntryIn(s.index, LoadIndex(s.disk.index), h);
    if s.items != [] {
      FlushEntry(c, s.disk, s.index, s.next, s.items, h);
    }
  }

  lemma FlushRunSane(c: Codec, m0: Index, s: Run)
    requires Sane(c, s)
    ensures Sane(c, FlushRun(m0, s))
  {
    forall h ensures EntryIn(FlushRun(m0, s).index, LoadIndex(FlushRun(m0, s).disk.index), h) {
      FlushRunEntry(c, m0, s, h);
    }
  }

  // ------------------------------------------------------- a blob that will be lost

  /** `h` could be read, and its only way leads to pack `p`, which is removed or about to be. */
  ghost predicate Doomed(c: Codec, d0: Disk, m0: Index, keep: set<string>, s: Run, p: nat, h: string) {
    && h in keep && h in m0 && ReadVia(c, d0, m0, h).Some? && m0[h].packId != p
    && (h in s.index ==> s.index[h].packId == p)
    && h in LoadIndex(s.disk.index) && LoadIndex(s.disk.index)[h].packId == p
    && h !in HashesOf(s.items) && p < s.next && (p in s.waiting || p !in s.disk.packs)
  }

  lemma FlushRunDooms(c: Codec, d0: Disk, m0: Index, keep: set<string>, s: Run, p: nat, h: string)
    requires Sane(c, s) && Doomed(c, d0, m0, keep, s, p, h)
    ensures Doomed(c, d0, m0, keep, FlushRun(m0, s), p, h) && p !in FlushRun(m0, s).disk.packs
  {
    FlushRunEntry(c, m0, s, h);
  }

  /** No round brings it back. */
  lemma RoundDooms(
    c: Codec, d0: Disk, m0: Index, keep: set<string>, flushEvery: nat, q: nat, s: Run, t: Run, p: nat, h: string)
    requires Sane(c, s) && Doomed(c, d0, m0, keep, s, p, h) && Round(c, m0, keep, flushEvery, q, s, t)
    ensures Sane(c, t) && Doomed(c, d0, m0, keep, t, p, h)
  {
    if q in s.disk.packs {
      var u :| Takes(c, m0, keep, q, s, u) && t == if |u.items| >= flushEvery then FlushRun(m0, u) else u;
      assert h !in Movable(c, m0, keep, q, s);
      FlushRunDooms(c, d0, m0, keep, u, p, h);
      FlushRunSane(c, m0, u);
    }
  }

  // ------------------------------------------------------- up to the first reuse

  /** `h` could be read at the start, and the merge has led it into pack `q`. */
  ghost predicate HousedBy(c: Codec, d0: Disk, m0: Index, keep: set<string>, s: Run, q: nat, h: string) {
    && h in keep && h in m0 && ReadVia(c, d0, m0, h).Some? && m0[h].packId != q && h !in HashesOf(s.items)
    && h in s.index && s.index[h].packId == q
    && h in LoadIndex(s.disk.index) && LoadIndex(s.disk.index)[h].packId == q
  }

  /** A pack the merge has written is there, and holds a blob that could be read at the start. */
  ghost predicate Housed(c: Codec, d0: Disk, m0: Index, keep: set<string>, s: Run, q: nat) {
    q in s.disk.packs && q !in s.waiting && exists h :: HousedBy(c, d0, m0, keep, s, q, h)
  }

  predicate SameEntryIn(m0: Index, m: Index, p: nat, h: string) {
    (h in m && m[h].packId == p <==> h in m0 && m0[h].packId == p) && (h in m && m[h].packId == p ==> m[h] == m0[h])
  }

  /** A pack not yet visited is as it was, with the entries it had. */
  ghost predicate AsItWas(d0: Disk, m0: Index, s: Run, p: nat) {
    && (p in s.disk.packs <==> p in d0.packs) && (p in d0.packs ==> s.disk.packs[p] == d0.packs[p])
    && p !in s.waiting && forall h :: SameEntryIn(m0, s.index, p, h)
  }

  /** What is buffered could be read at the start, from a pack that now waits. */
  ghost predicate BufferedFrom(c: Codec, d0: Disk, m0: Index, keep: set<string>, s: Run, h: string) {
    h in HashesOf(s.items) ==> h in keep && h in m0 && ReadVia(c, d0, m0, h).Some? && m0[h].packId in s.waiting
  }

  /** Packs not visited are as they were, packs written are housed, and the buffer comes from packs that wait. */
  ghost predicate Mid(
    c: Codec, d0: Disk, m0: Index, keep: set<string>, next: nat, visited: set<nat>, s: Run)
  {
    && Sane(c, s) && next <= s.next
    && (forall p: nat :: p < next && p !in visited ==> AsItWas(d0, m0, s, p))
    && s.waiting <= visited && (forall p :: p in s.waiting ==> p < next)
    && (forall q: nat :: next <= q < s.next ==> Housed(c, d0, m0, keep, s, q))
    && (forall h :: BufferedFrom(c, d0, m0, keep, s, h))
  }

  /** After the first `k` packs, none of which had its id given out before its turn. */
  ghost predicate Upto(
    c: Codec, d0: Disk, m0: Index, keep: set<string>, next: nat, flushEvery: nat, order: seq<nat>, k: nat, s: Run)
    requires k <= |order|
  {
    && Mid(c, d0, m0, keep, next, Visited(order, k), s) && PacksBelow(d0, next)
    && Course(next, s.next, s.items) == TallyAfter(SizesOf(c, d0, m0, keep, order), flushEvery, order[..k])
  }

  /** The rounds of an old pack move exactly its survivors. */
  lemma MovesSurvivors(c: Codec, d0: Disk, m0: Index, keep: set<string>, s: Run, p: nat)
    requires AsItWas(d0, m0, s, p)
    ensures Movable(c, m0, keep, p, s) == Survivors(c, d0, m0, keep, {p})
  {
    forall h ensures h in Movable(c, m0, keep, p, s) <==> h in Survivors(c, d0, m0, keep, {p}) {
      assert SameEntryIn(m0, s.index, p, h);
    }
  }

  lemma TakeKeeps(
    c: Codec, d0: Disk, m0: Index, keep: set<string>, next: nat, visited: set<nat>, s: Run, p: nat, u: Run)
    requires Mid(c, d0, m0, keep, next, visited, s) && p < next && p !in visited && Takes(c, m0, keep, p, s, u)
    ensures Mid(c, d0, m0, keep, next, visited + {p}, u)
  {
    MovesSurvivors(c, d0, m0, keep, s, p);
    assert AsItWas(d0, m0, s, p);
    forall h ensures BufferedFrom(c, d0, m0, keep, u, h) {
      assert BufferedFrom(c, d0, m0, keep, s, h);
    }
    TakeHouses(c, d0, m0, keep, next, s, p, u);
    forall r: nat | r < next && r !in visited + {p} ensures AsItWas(d0, m0, u, r) {
      assert AsItWas(d0, m0, s, r);
    }
  }

  /** The packs the merge wrote keep their blobs: a pack taken is an older one. */
  lemma TakeHouses(c: Codec, d0: Disk, m0: Index, keep: set<string>, next: nat, s: Run, p: nat, u: Run)
    requires p < next && Takes(c, m0, keep, p, s, u)
    requires forall q: nat :: next <= q < s.next ==> Housed(c, d0, m0, keep, s, q)
    ensures forall q: nat :: next <= q < u.next ==> Housed(c, d0, m0, keep, u, q)
  {
    forall q: nat | next <= q < u.next ensures Housed(c, d0, m0, keep, u, q) {
      assert Housed(c, d0, m0, keep, s, q);
      var h :| HousedBy(c, d0, m0, keep, s, q, h);
      assert HousedBy(c, d0, m0, keep, u, q, h);
    }
  }

  lemma FlushKeeps(c: Codec, d0: Disk, m0: Index, keep: set<string>, next: nat, visited: set<nat>, s: Run)
    requires Mid(c, d0, m0, keep, next, visited, s)
    ensures Mid(c, d0, m0, keep, next, visited, FlushRun(m0, s))
  {
    var t := FlushRun(m0, s);
    FlushRunSane(c, m0, s);
    forall r: nat | r < next && r !in visited ensures AsItWas(d0, m0, t, r) {
      assert AsItWas(d0, m0, s, r);
      forall h ensures SameEntryIn(m0, t.index, r, h) {
        assert SameEntryIn(m0, s.index, r, h) && BufferedFrom(c, d0, m0, keep, s, h);
        FlushRunEntry(c, m0, s, h);
      }
    }
    forall q: nat | next <= q < t.next ensures Housed(c, d0, m0, keep, t, q) {
      var h := FlushHouses(c, d0, m0, keep, next, s, q);
      assert HousedBy(c, d0, m0, keep, t, q, h);
    }
  }

  /** Who lives in a pack after the flush: the same blob as before, or in the new pack the first that was buffered. */
  lemma FlushHouses(c: Codec, d0: Disk, m0: Index, keep: set<string>, next: nat, s: Run, q: nat) returns (h: string)
    requires Sane(c, s) && next <= q < FlushRun(m0, s).next && (forall p :: p in s.waiting ==> p < next)
    requires q < s.next ==> Housed(c, d0, m0, keep, s, q)
    requires forall x :: BufferedFrom(c, d0, m0, keep, s, x)
    ensures HousedBy(c, d0, m0, keep, FlushRun(m0, s), q, h) && q in FlushRun(m0, s).disk.packs
  {
    if q < s.next {
      h :| HousedBy(c, d0, m0, keep, s, q, h);
    } else {
      h := s.items[0].hash;
      assert s.items[0] in s.items && BufferedFrom(c, d0, m0, keep, s, h);
    }
    FlushRunEntry(c, m0, s, h);
  }

  /** A round of a pack whose id was not given out by the merge. */
  lemma RoundKeeps(
    c: Codec, d0: Disk, m0: Index, keep: set<string>, next: nat, flushEvery: nat, order: seq<nat>, k: nat, s: Run, t: Run)
    requires k < |order| && EachOnce(order, Visited(order, |order|))
    requires Upto(c, d0, m0, keep, next, flushEvery, order, k, s)
    requires Round(c, m0, keep, flushEvery, order[k], s, t)
    requires !ReusedAt(SizesOf(c, d0, m0, keep, order), flushEvery, order, next, k)
    ensures Upto(c, d0, m0, keep, next, flushEvery, order, k + 1, t)
  {
    var p, sizes := order[k], SizesOf(c, d0, m0, keep, order);
    VisitedNext(order, k);
    VisitedNot(order, Visited(order, |order|), k);
    TallyStep(sizes, flushEvery, order, k);
    if p in s.disk.packs {
      var u :| Takes(c, m0, keep, p, s, u) && t == if |u.items| >= flushEvery then FlushRun(m0, u) else u;
      SizeTaken(c, d0, m0, keep, order, k, s, u);
      TakeKeeps(c, d0, m0, keep, next, Visited(order, k), s, p, u);
      FlushKeeps(c, d0, m0, keep, next, Visited(order, k + 1), u);
      RoundCounts(m0, sizes, flushEvery, p, next, s, u);
    } else {
      assert p < next ==> AsItWas(d0, m0, s, p);
      MidMore(c, d0, m0, keep, next, Visited(order, k), Visited(order, k + 1), s);
    }
  }

  lemma SizeTaken(c: Codec, d0: Disk, m0: Index, keep: set<string>, order: seq<nat>, k: nat, s: Run, u: Run)
    requires k < |order| && AsItWas(d0, m0, s, order[k]) && Takes(c, m0, keep, order[k], s, u)
    ensures var sizes := SizesOf(c, d0, m0, keep, order);
      order[k] in sizes && |u.items| == |s.items| + sizes[order[k]] && u.next == s.next
  {
    MovesSurvivors(c, d0, m0, keep, s, order[k]);
  }

  /** The counts after a pack taken, flushed or not. */
  lemma RoundCounts(m0: Index, sizes: map<nat, nat>, flushEvery: nat, p: nat, next: nat, s: Run, u: Run)
    requires p in sizes && |u.items| == |s.items| + sizes[p] && u.next == s.next >= next
    ensures var t := if |u.items| >= flushEvery then FlushRun(m0, u) else u;
      t.next >= s.next && Course(next, t.next, t.items) == TallyNext(sizes, flushEvery, Course(next, s.next, s.items), p)
  {
    FlushCounts(m0, u);
  }

  lemma FlushCounts(m0: Index, s: Run)
    ensures FlushRun(m0, s).items == [] && FlushRun(m0, s).next == s.next + if s.items == [] then 0 else 1
  {
  }

  lemma MidMore(
    c: Codec, d0: Disk, m0: Index, keep: set<string>, next: nat, visited: set<nat>, more: set<nat>, s: Run)
    requires Mid(c, d0, m0, keep, next, visited, s) && visited <= more
    ensures Mid(c, d0, m0, keep, next, more, s)
  {
  }

  /** A round of a pack whose id the merge gave out: the blobs it holds are doomed. */
  lemma RoundLoses(
    c: Codec, d0: Disk, m0: Index, keep: set<string>, next: nat, flushEvery: nat, order: seq<nat>, k: nat, s: Run, t: Run)
    returns (h: string)
    requires k < |order| && Upto(c, d0, m0, keep, next, flushEvery, order, k, s)
    requires Round(c, m0, keep, flushEvery, order[k], s, t)
    requires ReusedAt(SizesOf(c, d0, m0, keep, order), flushEvery, order, next, k)
    ensures Sane(c, t) && Doomed(c, d0, m0, keep, t, order[k], h)
  {
    var p := order[k];
    assert Housed(c, d0, m0, keep, s, p);
    h :| HousedBy(c, d0, m0, keep, s, p, h);
    var u :| Takes(c, m0, keep, p, s, u) && t == if |u.items| >= flushEvery then FlushRun(m0, u) else u;
    assert h !in Movable(c, m0, keep, p, s);
    assert Doomed(c, d0, m0, keep, u, p, h);
    FlushRunDooms(c, d0, m0, keep, u, p, h);
    FlushRunSane(c, m0, u);
  }

  lemma {:induction false} RoundsDoom(
    c: Codec, d0: Disk, m0: Index, keep: set<string>, flushEvery: nat, order: seq<nat>, s: Run, t: Run, p: nat, h: string)
    requires Sane(c, s) && Doomed(c, d0, m0, keep, s, p, h) && Rounds(c, m0, keep, flushEvery, order, s, t)
    ensures Sane(c, t) && Doomed(c, d0, m0, keep, t, p, h)
    decreases |order|
  {
    if order != [] {
      var u :| Round(c, m0, keep, flushEvery, order[0], s, u) && Rounds(c, m0, keep, flushEvery, order[1..], u, t);
      RoundDooms(c, d0, m0, keep, flushEvery, order[0], s, u, p, h);
      RoundsDoom(c, d0, m0, keep, flushEvery, order[1..], u, t, p, h);
    }
  }

  /** From the `k`-th pack on, with a reuse still to come. */
  lemma {:induction false} LosesFrom(
    c: Codec, d0: Disk, m0: Index, keep: set<string>, next: nat, flushEvery: nat, order: seq<nat>, k: nat, s: Run, t: Run,
    j: nat)
    returns (p: nat, h: string)
    requires EachOnce(order, Visited(order, |order|)) && k <= j < |order|
    requires ReusedAt(SizesOf(c, d0, m0, keep, order), flushEvery, order, next, j)
    requires Upto(c, d0, m0, keep, next, flushEvery, order, k, s)
    requires Rounds(c, m0, keep, flushEvery, order[k..], s, t)
    ensures p in order && Sane(c, t) && Doomed(c, d0, m0, keep, t, p, h)
    decreases |order| - k
  {
    assert order[k..][0] == order[k] && order[k..][1..] == order[k + 1..];
    var u :| Round(c, m0, keep, flushEvery, order[k], s, u) && Rounds(c, m0, keep, flushEvery, order[k + 1..], u, t);
    if ReusedAt(SizesOf(c, d0, m0, keep, order), flushEvery, order, next, k) {
      p := order[k];
      h := RoundLoses(c, d0, m0, keep, next, flushEvery, order, k, s, u);
      RoundsDoom(c, d0, m0, keep, flushEvery, order[k + 1..], u, t, p, h);
    } else {
      RoundKeeps(c, d0, m0, keep, next, flushEvery, order, k, s, u);
      p, h := LosesFrom(c, d0, m0, keep, next, flushEvery, order, k + 1, u, t, j);
    }
  }

  lemma StartsUpto(c: Codec, d0: Disk, m0: Index, keep: set<string>, next: nat, flushEvery: nat, order: seq<nat>)
    requires PacksBelow(d0, next) && Within(m0, LoadIndex(d0.index))
    ensures Upto(c, d0, m0, keep, next, flushEvery, order, 0, Run(d0, m0, [], {}, next))
  {
    forall p: nat | p < next ensures AsItWas(d0, m0, Run(d0, m0, [], {}, next), p) {
      forall h ensures SameEntryIn(m0, m0, p, h) {
      }
    }
  }

  /** A merge that reuses an id leaves a readable kept blob on a way that leads nowhere. */
  lemma MergeDooms(
    c: Codec, d: Disk, m: Index, next: nat, keep: set<string>, flushEvery: nat, order: seq<nat>, end: Run)
    returns (p: nat, h: string)
    requires PacksBelow(d, next) && Within(m, LoadIndex(d.index)) && EachOnce(order, Visited(order, |order|))
    requires Reuses(SizesOf(c, d, m, keep, order), flushEvery, order, next)
    requires Merges(c, d, m, [], m, next, keep, flushEvery, order, end)
    ensures p in order && Sane(c, end) && Doomed(c, d, m, keep, end, p, h) && p !in end.disk.packs
  {
    var t :| Rounds(c, m, keep, flushEvery, order, Run(d, m, [], {}, next), t) && end == FlushRun(m, t);
    var j: nat :| j < |order| && ReusedAt(SizesOf(c, d, m, keep, order), flushEvery, order, next, j);
    SliceEnds(order, 0);
    StartsUpto(c, d, m, keep, next, flushEvery, order);
    p, h := LosesFrom(c, d, m, keep, next, flushEvery, order, 0, Run(d, m, [], {}, next), t, j);
    FlushRunDooms(c, d, m, keep, t, p, h);
    FlushRunSane(c, m, t);
  }

  /**
   * A merge that gives a small pack's id out before that pack's turn loses a kept blob that could be
   * read: whatever the disk, the memory index, the keep-set, the thresholds and the order.
   */
  lemma ReuseLoses(
    c: Codec, d: Disk, m: Index, next: nat, keep: set<string>, flushEvery: nat, order: seq<nat>, end: Run)
    requires PacksBelow(d, next) && Within(m, LoadIndex(d.index)) && EachOnce(order, Visited(order, |order|))
    requires Reuses(SizesOf(c, d, m, keep, order), flushEvery, order, next)
    requires Merges(c, d, m, [], m, next, keep, flushEvery, order, end)
    ensures exists h :: h in keep && ReadVia(c, d, m, h).Some? && Reads(c, end.disk, h).None?
  {
    var p, h := MergeDooms(c, d, m, next, keep, flushEvery, order, end);
    assert h in keep;
  }

  // ------------------------------------------------------- the whole consolidation

  /** `compactPack`: some of a pack's blobs buffered and made durable, then the pack removed. */
  ghost predicate Compacts(c: Codec, q: nat, s: Run, t: Run) {
    exists items :: SoundItems(c, items) && HashesOf(items) <= Of(s.index, {q})
      && t == FlushRun(s.index, s.(items := items, waiting := {q}))
  }

  ghost predicate CompactsAll(c: Codec, mixed: seq<nat>, s: Run, t: Run)
    decreases |mixed|
  {
    if mixed == [] then t == s
    else exists u :: Compacts(c, mixed[0], s, u) && CompactsAll(c, mixed[1..], u, t)
  }

  /** The index file as it was, or rewritten from memory. */
  ghost predicate Rewritten(s: Run, x: Disk) {
    x == s.disk || (x.packs == s.disk.packs && LoadIndex(x.index) == s.index)
  }

  /**
   * A consolidation that starts with nothing buffered: the wholly dead packs go, while the index file
   * still lists their blobs; the small ones are merged, the mixed ones compacted, the index rewritten.
   */
  ghost predicate Consolidates(
    c: Codec, d: Disk, m: Index, next: nat, keep: set<string>, flushEvery: nat, order: seq<nat>, mixed: seq<nat>, x: Disk)
  {
    var dead := WhollyDead(m, keep);
    exists s, t ::
      && Merges(c, d.(packs := d.packs - dead), m - Of(m, dead), [], m, next, keep, flushEvery, order, s)
      && CompactsAll(c, mixed, s, t) && Rewritten(t, x)
  }

  /** The members of dead packs play no part in the rounds of others. */
  lemma FlushApart(m: Index, dead: set<nat>, s: Run)
    requires s.waiting !! dead
    ensures FlushRun(m - Of(m, dead), s) == FlushRun(m, s)
  {
    var m' := Reindex(s.index, IndexDelta(s.items, s.next));
    assert Leftover(m - Of(m, dead), m', s.waiting) == Leftover(m, m', s.waiting);
  }

  lemma MovableApart(c: Codec, m: Index, dead: set<nat>, keep: set<string>, p: nat, s: Run)
    requires p !in dead
    ensures Movable(c, m - Of(m, dead), keep, p, s) == Movable(c, m, keep, p, s)
  {
    SameMembers(m, dead, p);
  }

  lemma TakesApart(c: Codec, m: Index, dead: set<nat>, keep: set<string>, p: nat, s: Run, u: Run)
    requires p !in dead && s.waiting !! dead && Takes(c, m, keep, p, s, u)
    ensures Takes(c, m - Of(m, dead), keep, p, s, u) && u.waiting !! dead
  {
    MovableApart(c, m, dead, keep, p, s);
  }

  lemma RoundApart(c: Codec, m: Index, dead: set<nat>, keep: set<string>, flushEvery: nat, p: nat, s: Run, t: Run)
    requires p !in dead && s.waiting !! dead && Round(c, m, keep, flushEvery, p, s, t)
    ensures Round(c, m - Of(m, dead), keep, flushEvery, p, s, t) && t.waiting !! dead
  {
    if p in s.disk.packs {
      var u :| Takes(c, m, keep, p, s, u) && t == if |u.items| >= flushEvery then FlushRun(m, u) else u;
      TakesApart(c, m, dead, keep, p, s, u);
      TakenApart(m, dead, flushEvery, u);
      RoundIs(c, m - Of(m, dead), keep, flushEvery, p, s, u, t);
    }
  }

  lemma RoundIs(c: Codec, m0: Index, keep: set<string>, flushEvery: nat, p: nat, s: Run, u: Run, t: Run)
    requires Takes(c, m0, keep, p, s, u) && t == if |u.items| >= flushEvery then FlushRun(m0, u) else u
    ensures Round(c, m0, keep, flushEvery, p, s, t)
  {
  }

  lemma TakenApart(m: Index, dead: set<nat>, flushEvery: nat, u: Run)
    requires u.waiting !! dead
    ensures var t := if |u.items| >= flushEvery then FlushRun(m, u) else u;
      t == (if |u.items| >= flushEvery then FlushRun(m - Of(m, dead), u) else u) && t.waiting !! dead
  {
    FlushApart(m, dead, u);
  }

  lemma {:induction false} RoundsApart(
    c: Codec, m: Index, dead: set<nat>, keep: set<string>, flushEvery: nat, order: seq<nat>, s: Run, t: Run)
    requires (forall p :: p in order ==> p !in dead) && s.waiting !! dead && Rounds(c, m, keep, flushEvery, order, s, t)
    ensures Rounds(c, m - Of(m, dead), keep, flushEvery, order, s, t) && t.waiting !! dead
    decreases |order|
  {
    if order != [] {
      var u :| Round(c, m, keep, flushEvery, order[0], s, u) && Rounds(c, m, keep, flushEvery, order[1..], u, t);
      RoundApart(c, m, dead, keep, flushEvery, order[0], s, u);
      RoundsApart(c, m, dead, keep, flushEvery, order[1..], u, t);
      RoundsFront(c, m - Of(m, dead), keep, flushEvery, order, order[0], order[1..], s, u, t);
    }
  }

  lemma SizesApart(c: Codec, d: Disk, m: Index, dead: set<nat>, keep: set<string>, order: seq<nat>)
    requires forall p :: p in order ==> p !in dead
    ensures SizesOf(c, d.(packs := d.packs - dead), m - Of(m, dead), keep, order) == SizesOf(c, d, m, keep, order)
  {
    var d', m' := d.(packs := d.packs - dead), m - Of(m, dead);
    forall p | p in order ensures Survivors(c, d', m', keep, {p}) == Survivors(c, d, m, keep, {p}) {
      SameMembers(m, dead, p);
    }
  }

  /** What is left after the dead packs went can be read as before. */
  lemma ApartWithin(m: Index, dead: set<nat>, whole: Index)
    requires Within(m, whole)
    ensures Within(m - Of(m, dead), whole)
  {
    forall h ensures EntryIn(m - Of(m, dead), whole, h) {
      assert EntryIn(m, whole, h);
    }
  }

  /** No compaction of another pack brings the blob back. */
  lemma CompactDooms(c: Codec, d0: Disk, m0: Index, keep: set<string>, q: nat, s: Run, t: Run, p: nat, h: string)
    requires Sane(c, s) && Doomed(c, d0, m0, keep, s, p, h) && p !in s.disk.packs && q != p && Compacts(c, q, s, t)
    ensures Sane(c, t) && Doomed(c, d0, m0, keep, t, p, h) && p !in t.disk.packs
  {
    var items :| SoundItems(c, items) && HashesOf(items) <= Of(s.index, {q})
      && t == FlushRun(s.index, s.(items := items, waiting := {q}));
    var u := s.(items := items, waiting := {q});
    assert Sane(c, u) && h !in HashesOf(items);
    FlushRunEntry(c, s.index, u, h);
    FlushRunSane(c, s.index, u);
  }

  /** What the flush and the removal of `compactPack` make of disk and index is such a step. */
  lemma CompactsIs(c: Codec, q: nat, d: Disk, m: Index, items: seq<Item>, next: nat, d': Disk, m': Index)
    requires PacksBelow(d, next) && SoundItems(c, items) && Within(m, LoadIndex(d.index))
    requires HashesOf(items) <= Of(m, {q}) && (items == [] || next != q) && d' == RemovedAfter(d, items, next, {q})
    requires var flushed := Reindex(m, IndexDelta(items, next)); m' == flushed - Of(flushed, {q})
    ensures Compacts(c, q, Run(d, m, [], {}, next), Run(d', m', [], {}, next + if items == [] then 0 else 1))
  {
    var s, flushed := Run(d, m, [], {}, next), Reindex(m, IndexDelta(items, next));
    forall h | h in Of(flushed, {q}) ensures h in Leftover(m, flushed, {q}) {
      EmptyDelta(next);
      FlushEntry(c, d, m, next, items, h);
    }
    assert Leftover(m, flushed, {q}) == Of(flushed, {q});
    FlushRunIs(m, s.(items := items, waiting := {q}));
  }

  lemma {:induction false} CompactsAllDoom(
    c: Codec, d0: Disk, m0: Index, keep: set<string>, mixed: seq<nat>, s: Run, t: Run, p: nat, h: string)
    requires Sane(c, s) && Doomed(c, d0, m0, keep, s, p, h) && p !in s.disk.packs && p !in mixed
    requires CompactsAll(c, mixed, s, t)
    ensures Sane(c, t) && Doomed(c, d0, m0, keep, t, p, h) && p !in t.disk.packs
    decreases |mixed|
  {
    if mixed != [] {
      var u :| Compacts(c, mixed[0], s, u) && CompactsAll(c, mixed[1..], u, t);
      CompactDooms(c, d0, m0, keep, mixed[0], s, u, p, h);
      CompactsAllDoom(c, d0, m0, keep, mixed[1..], u, t, p, h);
    }
  }

  /**
   * The converse of `ConsolidatePacks`: where the merge gives a small pack's id out before that pack's
   * turn, the consolidation as a whole ends with a kept blob lost that the store could read before it,
   * whatever the disk, the memory index, the keep-set, the thresholds and the order.
   */
  lemma ConsolidationLoses(
    c: Codec, d: Disk, m: Index, next: nat, keep: set<string>, threshold: nat, flushEvery: nat, order: seq<nat>,
    mixed: seq<nat>, x: Disk)
    requires PacksBelow(d, next) && Within(m, LoadIndex(d.index))
    requires EachOnce(order, Small(m, keep, threshold)) && EachOnce(mixed, LargeMixed(m, keep, threshold))
    requires Reuses(SizesOf(c, d, m, keep, order), flushEvery, order, next)
    requires Consolidates(c, d, m, next, keep, flushEvery, order, mixed, x)
    ensures exists h :: h in keep && ReadVia(c, d, m, h).Some? && Reads(c, x, h).None?
  {
    var dead := WhollyDead(m, keep);
    var d', m' := d.(packs := d.packs - dead), m - Of(m, dead);
    var s, t :| Merges(c, d', m', [], m, next, keep, flushEvery, order, s) && CompactsAll(c, mixed, s, t) && Rewritten(t, x);
    SmallApart(m, keep, threshold, order, mixed);
    MergesApart(c, d', m, dead, next, keep, flushEvery, order, s);
    SizesApart(c, d, m, dead, keep, order);
    ApartWithin(m, dead, LoadIndex(d.index));
    var p, h := MergeDooms(c, d', m', next, keep, flushEvery, order, s);
    CompactsAllDoom(c, d', m', keep, mixed, s, t, p, h);
    assert h in keep && ReadVia(c, d, m, h).Some?;
  }

  lemma MergesApart(
    c: Codec, d: Disk, m: Index, dead: set<nat>, next: nat, keep: set<string>, flushEvery: nat, order: seq<nat>, end: Run)
    requires forall p :: p in order ==> p !in dead
    requires Merges(c, d, m - Of(m, dead), [], m, next, keep, flushEvery, order, end)
    ensures Merges(c, d, m - Of(m, dead), [], m - Of(m, dead), next, keep, flushEvery, order, end)
  {
    var m' := m - Of(m, dead);
    var t :| Rounds(c, m, keep, flushEvery, order, Run(d, m', [], {}, next), t) && end == FlushRun(m, t);
    RoundsApart(c, m, dead, keep, flushEvery, order, Run(d, m', [], {}, next), t);
    FlushApart(m, dead, t);
  }

  /** Dead, small and mixed packs are different packs. */
  lemma SmallApart(m: Index, keep: set<string>, threshold: nat, order: seq<nat>, mixed: seq<nat>)
    requires EachOnce(order, Small(m, keep, threshold)) && EachOnce(mixed, LargeMixed(m, keep, threshold))
    ensures Visited(order, |order|) == Small(m, keep, threshold)
    ensures forall p :: p in order ==> p !in WhollyDead(m, keep) && p !in mixed
  {
    forall p | p in order ensures p in Small(m, keep, threshold) {
      var i: nat :| i < |order| && order[i] == p;
      assert p in Visited(order, |order|);
    }
    forall p | p in mixed ensures p in LargeMixed(m, keep, threshold) {
      var i: nat :| i < |mixed| && mixed[i] == p;
      assert p in Visited(mixed, |mixed|);
    }
  }

  // -------------------------------------------------------------- such a merge exists

  lemma {:induction false} ItemsFor(c: Codec, s: Run, hs: set<string>) returns (items: seq<Item>)
    requires forall h :: h in hs ==> ReadVia(c, s.disk, s.index, h).Some?
    ensures SoundItems(c, items) && HashesOf(items) == hs && |items| == |hs|
    decreases hs
  {
    if hs == {} {
      items := [];
    } else {
      var h :| h in hs;
      var rest := ItemsFor(c, s, hs - {h});
      var it := Item(h, Substr(s.disk.packs[s.index[h].packId], s.index[h].offset, s.index[h].len));
      PushItem(c, rest, it);
      items := rest + [it];
    }
  }

  lemma RoundRuns(c: Codec, m0: Index, keep: set<string>, flushEvery: nat, p: nat, s: Run) returns (t: Run)
    requires Sane(c, s)
    ensures Round(c, m0, keep, flushEvery, p, s, t) && Sane(c, t)
  {
    t := s;
    if p in s.disk.packs {
      var more := ItemsFor(c, s, Movable(c, m0, keep, p, s));
      HashesConcat(s.items, more);
      var u := s.(items := s.items + more, waiting := s.waiting + {p});
      assert Takes(c, m0, keep, p, s, u);
      FlushRunSane(c, m0, u);
      t := if |u.items| >= flushEvery then FlushRun(m0, u) else u;
    }
  }

  lemma HashesConcat(xs: seq<Item>, ys: seq<Item>)
    ensures HashesOf(xs + ys) == HashesOf(xs) + HashesOf(ys)
  {
  }

  lemma {:induction false} RoundsRun(c: Codec, m0: Index, keep: set<string>, flushEvery: nat, order: seq<nat>, s: Run) returns (t: Run)
    requires Sane(c, s)
    ensures Rounds(c, m0, keep, flushEvery, order, s, t) && Sane(c, t)
    decreases |order|
  {
    if order == [] {
      t := s;
    } else {
      var u := RoundRuns(c, m0, keep, flushEvery, order[0], s);
      t := RoundsRun(c, m0, keep, flushEvery, order[1..], u);
    }
  }

  /** Every merge can run to its end. */
  lemma MergeRuns(
    c: Codec, d: Disk, m: Index, m0: Index, next: nat, keep: set<string>, flushEvery: nat, order: seq<nat>)
    returns (end: Run)
    requires PacksBelow(d, next) && Within(m, LoadIndex(d.index))
    ensures Merges(c, d, m, [], m0, next, keep, flushEvery, order, end)
  {
    var t := RoundsRun(c, m0, keep, flushEvery, order, Run(d, m, [], {}, next));
    end := FlushRun(m0, t);
  }

  lemma {:induction false} CompactsAllRun(c: Codec, mixed: seq<nat>, s: Run) returns (t: Run)
    ensures CompactsAll(c, mixed, s, t)
    decreases |mixed|
  {
    if mixed == [] {
      t := s;
    } else {
      var u := FlushRun(s.index, s.(items := [], waiting := {mixed[0]}));
      assert Compacts(c, mixed[0], s, u);
      t := CompactsAllRun(c, mixed[1..], u);
    }
  }

  /** And so can every consolidation. */
  lemma ConsolidationRuns(
    c: Codec, d: Disk, m: Index, next: nat, keep: set<string>, flushEvery: nat, order: seq<nat>, mixed: seq<nat>)
    returns (x: Disk)
    requires PacksBelow(d, next) && Within(m, LoadIndex(d.index))
    ensures Consolidates(c, d, m, next, keep, flushEvery, order, mixed, x)
  {
    var dead := WhollyDead(m, keep);
    ApartWithin(m, dead, LoadIndex(d.index));
    var s := MergeRuns(c, d.(packs := d.packs - dead), m - Of(m, dead), m, next, keep, flushEvery, order);
    var t := CompactsAllRun(c, mixed, s);
    x := t.disk;
    assert Rewritten(t, x);
  }

  /**
   * A crash after removing the newest pack and before rewriting the index leaves a line for a pack id
   * that a reload gives out again. With one live blob in pack 0 and a kept hash on such a line, both
   * packs are small, and a consolidation that visits pack 0 first moves its blob into pack 1 and removes that.
   */
  lemma ReusedPackIdLosesABlob(c: Codec, content: Bytes, stale: string, threshold: nat) returns (x: Disk)
    requires Lawful(c) && stale != c.hash(content) && threshold > 1
    ensures var h, items := c.hash(content), [Item(c.hash(content), c.enc(content))];
      var d := Disk(map[0 := PackBody(items)], IndexDelta(items, 0) + [IndexLine(stale, Loc(1, 0, 4))]);
      var m := LoadIndex(d.index);
      && EachOnce([0, 1], Small(m, {h, stale}, threshold)) && EachOnce([], LargeMixed(m, {h, stale}, threshold))
      && Reads(c, d, h) == Some(content)
      && Consolidates(c, d, m, 1, {h, stale}, 1, [0, 1], [], x) && Reads(c, x, h) == None
  {
    var h, items := c.hash(content), [Item(c.hash(content), c.enc(content))];
    var d := Disk(map[0 := PackBody(items)], IndexDelta(items, 0) + [IndexLine(stale, Loc(1, 0, 4))]);
    TwoEntries(c, content, stale);
    x := LosesTheOther(c, d, LoadIndex(d.index), {h, stale}, [0, 1], h, stale, threshold);
  }

  lemma LosesTheOther(
    c: Codec, d: Disk, m: Index, keep: set<string>, order: seq<nat>, h: string, stale: string, threshold: nat)
    returns (x: Disk)
    requires m == LoadIndex(d.index) && keep == {h, stale} && order == [0, 1]
    requires m.Keys == {h, stale} && m[h].packId == 0 && m[stale].packId == 1
    requires h != stale && threshold > 1 && d.packs.Keys == {0} && Reads(c, d, h).Some? && Reads(c, d, stale).None?
    ensures EachOnce(order, Small(m, keep, threshold)) && EachOnce([], LargeMixed(m, keep, threshold))
    ensures Consolidates(c, d, m, 1, keep, 1, order, [], x) && Reads(c, x, h) == None
  {
    TwoSmall(m, keep, order, h, stale, threshold);
    TwoReuse(c, d, m, keep, order, h, stale);
    WithinItself(m);
    x := RunsAndLoses(c, d, m, 1, keep, threshold, 1, order);
    OtherIsLost(c, d, x, h, stale);
  }

  /** A consolidation without large mixed packs that gives an id out early, run to its end. */
  lemma RunsAndLoses(
    c: Codec, d: Disk, m: Index, next: nat, keep: set<string>, threshold: nat, flushEvery: nat, order: seq<nat>)
    returns (x: Disk)
    requires PacksBelow(d, next) && Within(m, LoadIndex(d.index))
    requires EachOnce(order, Small(m, keep, threshold)) && EachOnce([], LargeMixed(m, keep, threshold))
    requires Reuses(SizesOf(c, d, m, keep, order), flushEvery, order, next)
    ensures Consolidates(c, d, m, next, keep, flushEvery, order, [], x)
    ensures exists h :: h in keep && ReadVia(c, d, m, h).Some? && Reads(c, x, h).None?
  {
    x := ConsolidationRuns(c, d, m, next, keep, flushEvery, order, []);
    ConsolidationLoses(c, d, m, next, keep, threshold, flushEvery, order, [], x);
  }

  lemma WithinItself(m: Index)
    ensures Within(m, m)
  {
    forall h ensures EntryIn(m, m, h) {
    }
  }

  lemma OtherIsLost(c: Codec, d: Disk, x: Disk, h: string, stale: string)
    requires Reads(c, d, stale).None? && exists y :: y in {h, stale} && Reads(c, d, y).Some? && Reads(c, x, y).None?
    ensures Reads(c, x, h) == None
  {
  }

  /** With one readable blob in pack 0 and a kept hash led to pack 1, both packs are small. */
  lemma TwoSmall(m: Index, keep: set<string>, order: seq<nat>, h: string, stale: string, threshold: nat)
    requires keep == {h, stale} && order == [0, 1]
    requires m.Keys == {h, stale} && m[h].packId == 0 && m[stale].packId == 1
    requires h != stale && threshold > 1
    ensures EachOnce(order, Small(m, keep, threshold)) && EachOnce([], LargeMixed(m, keep, threshold))
  {
    assert Of(m, {0}) == {h} && Of(m, {1}) == {stale};
    assert {h} * keep == {h} && {stale} * keep == {stale};
    assert LiveCount(m, keep, 0) == 1 && LiveCount(m, keep, 1) == 1;
    assert PackIds(m) == {0, 1};
    VisitedNext(order, 0);
    VisitedNext(order, 1);
    assert Visited(order, 0) == {};
  }

  /** The blob of pack 0 fills the buffer, so its flush takes id 1 before pack 1 has its turn. */
  lemma TwoReuse(c: Codec, d: Disk, m: Index, keep: set<string>, order: seq<nat>, h: string, stale: string)
    requires keep == {h, stale} && order == [0, 1]
    requires m.Keys == {h, stale} && m[h].packId == 0 && m[stale].packId == 1 && h != stale
    requires d.packs.Keys == {0} && ReadVia(c, d, m, h).Some?
    ensures Reuses(SizesOf(c, d, m, keep, order), 1, order, 1)
  {
    var sizes := SizesOf(c, d, m, keep, order);
    assert Survivors(c, d, m, keep, {0}) == {h};
    assert 0 in order && 0 in sizes && sizes[0] == 1;
    assert order[..1] == [0] && order[..0] == [];
    TallyStep(sizes, 1, order, 0);
    assert ReusedAt(sizes, 1, order, 1, 1);
  }

  /** The index of that disk, and what reads from it. */
  lemma TwoEntries(c: Codec, content: Bytes, stale: string)
    requires Lawful(c) && stale != c.hash(content)
    ensures var h, items := c.hash(content), [Item(c.hash(content), c.enc(content))];
      var d := Disk(map[0 := PackBody(items)], IndexDelta(items, 0) + [IndexLine(stale, Loc(1, 0, 4))]);
      var m := LoadIndex(d.index);
      && m.Keys == {h, stale} && m[h].packId == 0 && m[stale].packId == 1
      && Reads(c, d, h) == Some(content) && Reads(c, d, stale) == None
  {
    var h, items := c.hash(content), [Item(c.hash(content), c.enc(content))];
    var line := IndexDelta(items, 0)[0];
    assert IndexDelta(items, 0) == [line];
    LoadTwo(line, IndexLine(stale, Loc(1, 0, 4)));
    assert [line] + [IndexLine(stale, Loc(1, 0, 4))] == [line, IndexLine(stale, Loc(1, 0, 4))];
    SliceExact(items, 0, 0);
    assert DecodesBack(c, content);
  }

  lemma LoadTwo(x: IndexLine, y: IndexLine)
    ensures LoadIndex([x, y]) == map[x.hash := x.loc][y.hash := y.loc]
  {
    var lines := [x, y];
    ReindexSnoc(map[], lines, 1);
    ReindexSnoc(map[], lines, 2);
    SliceEnds(lines, 2);
  }
}
