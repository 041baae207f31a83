/** The content store's state as values: what its parts owe each other, and what each step keeps. */
module PackState {
  import opened Base
  import opened PackDisk
  import opened BlobCache

  // The invariants speak of one hash at a time; a proof names the hashes it needs.

  predicate EntryIn(m: Index, whole: Index, h: string) {
    h in m ==> h in whole && whole[h] == m[h]
  }

  ghost predicate Within(m: Index, whole: Index) {
    forall h :: EntryIn(m, whole, h)
  }

  predicate SliceDecodes(c: Codec, loc: Loc, pack: string) {
    |Substr(pack, loc.offset, loc.len)| == loc.len ==> c.dec(Substr(pack, loc.offset, loc.len)).Some?
  }

  predicate DecodesAt(c: Codec, d: Disk, m: Index, h: string) {
    h in m && m[h].packId in d.packs ==> SliceDecodes(c, m[h], d.packs[m[h].packId])
  }

  /** Reading this pack meets a full-length slice that is not base64, and throws. */
  ghost predicate Undecodable(c: Codec, d: Disk, m: Index, p: nat) {
    exists h :: h in m && m[h].packId == p && !DecodesAt(c, d, m, h)
  }

  /** Every full-length slice an index names decodes. */
  ghost predicate Decodes(c: Codec, d: Disk, m: Index) {
    forall h :: DecodesAt(c, d, m, h)
  }

  predicate BelowAt(m: Index, n: nat, h: string) {
    h in m ==> m[h].packId < n
  }

  ghost predicate Below(m: Index, n: nat) {
    forall h :: BelowAt(m, n, h)
  }

  ghost predicate PacksBelow(d: Disk, n: nat) {
    forall p :: p in d.packs ==> p < n
  }

  predicate BackedAt(c: Codec, d: Disk, m: Index, blobs: map<string, Bytes>, pending: set<string>, h: string) {
    h in blobs ==> c.hash(blobs[h]) == h && (h in pending || ReadVia(c, d, m, h).Some?)
  }

  /** What is cached is its hash's content, and unless still pending it can be read again. */
  ghost predicate Backed(c: Codec, d: Disk, m: Index, blobs: map<string, Bytes>, pending: set<string>) {
    forall h :: BackedAt(c, d, m, blobs, pending, h)
  }

  /** Every promised hash reads. */
  ghost predicate Safe(c: Codec, d: Disk, ks: iset<string>) {
    forall h :: h in ks ==> Reads(c, d, h).Some?
  }

  /** Every promised hash is in the memory index. */
  ghost predicate Held(m: Index, ks: iset<string>) {
    forall h :: h in ks ==> h in m
  }

  /** The hashes one or more packs hold, by an index. */
  function Of(m: Index, packs: set<nat>): set<string> {
    set h | h in m && m[h].packId in packs
  }

  function PackIds(m: Index): set<nat> {
    set h | h in m :: m[h].packId
  }

  ghost predicate TornPack(x: Disk, d: Disk, packId: nat, text: string) {
    exists k :: 0 <= k <= |text| && x == PackAppended(d, packId, text[..k])
  }

  ghost predicate TornIndex(x: Disk, d: Disk, lines: seq<IndexLine>) {
    exists k :: 0 <= k <= |lines| && x == IndexAppended(d, lines[..k])
  }

  function PackAppended(d: Disk, packId: nat, text: string): Disk {
    d.(packs := d.packs[packId := (if packId in d.packs then d.packs[packId] else "") + text])
  }

  function IndexAppended(d: Disk, lines: seq<IndexLine>): Disk {
    d.(index := d.index + lines)
  }

  // -------------------------------------------------------------- flush, on values

  /** One entry of the memory index across a complete flush. */
  lemma FlushEntry(c: Codec, d: Disk, m: Index, packId: nat, items: seq<Item>, h: string)
    requires packId !in d.packs && SoundItems(c, items) && Within(m, LoadIndex(d.index))
    ensures var d', m' := Flushed(d, packId, items, |items|), Reindex(m, IndexDelta(items, packId));
      var loaded := LoadIndex(d'.index);
      if h in HashesOf(items) then
        && h in m' && h in loaded && loaded[h] == m'[h] && m'[h].packId == packId
        && ReadAt(c, d', h, m'[h]).Some? && SliceDecodes(c, m'[h], d'.packs[packId])
      else
        && (h in m' <==> h in m) && (h in m ==> m'[h] == m[h] && h in loaded && loaded[h] == m[h])
        && (h in loaded <==> h in LoadIndex(d.index)) && (h in loaded ==> loaded[h] == LoadIndex(d.index)[h])
  {
    var delta := IndexDelta(items, packId);
    assert delta[..|items|] == delta && items[..|items|] == items;
    ReindexAppend(map[], d.index, delta);
    var k := ReindexDelta(m, items, packId, |items|, h);
    var k' := ReindexDelta(LoadIndex(d.index), items, packId, |items|, h);
    if h in HashesOf(items) {
      SliceExact(items, packId, k);
      assert items[k] in items;
      SameLine(m, LoadIndex(d.index), delta, h);
    } else {
      assert EntryIn(m, LoadIndex(d.index), h);
    }
  }

  /** The same lines put the same entry over any index, once one of them names the hash. */
  lemma {:induction false} SameLine(m: Index, n: Index, lines: seq<IndexLine>, h: string)
    ensures (exists k :: 0 <= k < |lines| && lines[k].hash == h) ==>
      h in Reindex(m, lines) && h in Reindex(n, lines) && Reindex(m, lines)[h] == Reindex(n, lines)[h]
    decreases |lines|
  {
    if lines != [] {
      SameLine(m, n, lines[..|lines| - 1], h);
      if k :| 0 <= k < |lines| && lines[k].hash == h {
        assert k < |lines| - 1 ==> lines[..|lines| - 1][k].hash == h;
      }
    }
  }

  /** Disk, index, cache and buffer in step with each other. */
  ghost predicate InStep(
    c: Codec, d: Disk, m: Index, blobs: map<string, Bytes>, items: seq<Item>, pending: set<string>, next: nat)
  {
    && Lawful(c)
    && Backed(c, d, m, blobs, pending)
    && SoundItems(c, items) && pending <= HashesOf(items)
    && PacksBelow(d, next)
    && Within(m, LoadIndex(d.index))
  }

  /** Every index entry names a pack id already given out, and decodes if its pack exists. */
  ghost predicate TrustedEntries(c: Codec, d: Disk, m: Index, next: nat) {
    Below(m, next) && Decodes(c, d, m)
  }

  lemma ShrinkKeepsStep(
    c: Codec, d: Disk, m: Index, blobs: map<string, Bytes>, items: seq<Item>, pending: set<string>, next: nat,
    blobs': map<string, Bytes>)
    requires InStep(c, d, m, blobs, items, pending, next) && SubCache(blobs', blobs)
    ensures InStep(c, d, m, blobs', items, pending, next)
  {
    forall h ensures BackedAt(c, d, m, blobs', pending, h) {
      assert BackedAt(c, d, m, blobs, pending, h) && SubAt(blobs', blobs, h);
    }
  }

  lemma FlushKeepsTrust(c: Codec, d: Disk, m: Index, items: seq<Item>, packId: nat, next: nat)
    requires next == packId + 1
    requires PacksBelow(d, packId) && SoundItems(c, items) && Within(m, LoadIndex(d.index))
    requires TrustedEntries(c, d, m, packId)
    ensures var d', m' := Flushed(d, packId, items, |items|), Reindex(m, IndexDelta(items, packId));
      TrustedEntries(c, d', m', next)
  {
    var d', m' := Flushed(d, packId, items, |items|), Reindex(m, IndexDelta(items, packId));
    forall h ensures BelowAt(m', next, h) && DecodesAt(c, d', m', h) {
      FlushEntry(c, d, m, packId, items, h);
      assert BelowAt(m, packId, h) && DecodesAt(c, d, m, h);
    }
  }

  /** A complete flush keeps everything in step, with nothing pending, and the entries trusted. */
  lemma FlushKeepsStep(
    c: Codec, d: Disk, m: Index, blobs: map<string, Bytes>, items: seq<Item>, pending: set<string>, packId: nat)
    requires InStep(c, d, m, blobs, items, pending, packId)
    ensures var d', m' := Flushed(d, packId, items, |items|), Reindex(m, IndexDelta(items, packId));
      && InStep(c, d', m', blobs, [], {}, packId + 1)
      && (m == LoadIndex(d.index) ==> m' == LoadIndex(d'.index))
      && (TrustedEntries(c, d, m, packId) ==> TrustedEntries(c, d', m', packId + 1))
  {
    var d', m' := Flushed(d, packId, items, |items|), Reindex(m, IndexDelta(items, packId));
    if TrustedEntries(c, d, m, packId) {
      FlushKeepsTrust(c, d, m, items, packId, packId + 1);
    }
    forall h
      ensures EntryIn(m', LoadIndex(d'.index), h) && BackedAt(c, d', m', blobs, {}, h)
      ensures m == LoadIndex(d.index) && h in LoadIndex(d'.index) ==> h in m'
    {
      FlushEntry(c, d, m, packId, items, h);
      assert BackedAt(c, d, m, blobs, pending, h) && EntryIn(m, LoadIndex(d.index), h);
    }
    forall h ensures m == LoadIndex(d.index) && h in m' ==> h in LoadIndex(d'.index) && LoadIndex(d'.index)[h] == m'[h] {
      assert EntryIn(m', LoadIndex(d'.index), h);
    }
  }

  /** Marking a sound item pending as it is buffered. */
  lemma PendMore(
    c: Codec, d: Disk, m: Index, blobs: map<string, Bytes>, items: seq<Item>, pending: set<string>, next: nat, it: Item)
    requires InStep(c, d, m, blobs, items, pending, next) && SoundItem(c, it)
    ensures InStep(c, d, m, blobs, items + [it], pending + {it.hash}, next)
  {
    PushItem(c, items, it);
    var pending' := pending + {it.hash};
    forall h ensures BackedAt(c, d, m, blobs, pending', h) {
      assert BackedAt(c, d, m, blobs, pending, h);
    }
  }

  /** A cached blob that is not pending is what a reload would read. */
  lemma CachedReads(
    c: Codec, d: Disk, m: Index, blobs: map<string, Bytes>, items: seq<Item>, pending: set<string>, next: nat, h: string)
    requires InStep(c, d, m, blobs, items, pending, next)
    ensures h in blobs ==> c.hash(blobs[h]) == h
    ensures h in blobs && h !in pending ==> ReadVia(c, d, m, h) == Some(blobs[h]) && Reads(c, d, h) == Some(blobs[h])
  {
    assert BackedAt(c, d, m, blobs, pending, h) && EntryIn(m, LoadIndex(d.index), h);
    if h in blobs && h !in pending {
      assert NoCollision(c, ReadVia(c, d, m, h).value, blobs[h]);
    }
  }

  /** Buffering a new blob and caching it. */
  lemma PutKeepsStep(
    c: Codec, d: Disk, m: Index, blobs: map<string, Bytes>, items: seq<Item>, pending: set<string>, next: nat,
    hash: string, content: Bytes)
    requires InStep(c, d, m, blobs, items, pending, next) && hash == c.hash(content)
    ensures var items', pending' := items + [Item(hash, c.enc(content))], pending + {hash};
      && InStep(c, d, m, blobs[hash := content], items', pending', next)
      && HashesOf(items') == HashesOf(items) + {hash}
  {
    EncodedIsSound(c, content);
    PushItem(c, items, Item(hash, c.enc(content)));
    var blobs', pending' := blobs[hash := content], pending + {hash};
    forall h ensures BackedAt(c, d, m, blobs', pending', h) {
      assert BackedAt(c, d, m, blobs, pending, h);
    }
  }

  lemma FlushedInFull(d: Disk, packId: nat, items: seq<Item>)
    requires packId !in d.packs
    ensures IndexAppended(PackAppended(d, packId, PackBody(items)), IndexDelta(items, packId))
         == Flushed(d, packId, items, |items|)
  {
    assert "" + PackBody(items) == PackBody(items);
    assert IndexDelta(items, packId)[..|items|] == IndexDelta(items, packId);
  }

  lemma PushItem(c: Codec, items: seq<Item>, it: Item)
    requires SoundItems(c, items) && SoundItem(c, it)
    ensures SoundItems(c, items + [it]) && HashesOf(items + [it]) == HashesOf(items) + {it.hash}
  {
    var more := items + [it];
    assert more[..|more|] == more && more[..|items|] == items;
    HashesSnoc(more, |more|);
  }

  /** Every disk state of a flush, torn ones included, still reads all that was readable. */
  lemma FlushStatesKeep(c: Codec, d: Disk, packId: nat, items: seq<Item>, x: Disk)
    requires packId !in d.packs && SoundItems(c, items)
    requires TornPack(x, d, packId, PackBody(items))
      || TornIndex(x, PackAppended(d, packId, PackBody(items)), IndexDelta(items, packId))
    ensures KeepsAll(c, d, x)
  {
    forall h | Reads(c, d, h).Some? ensures Reads(c, x, h).Some? {
      if TornPack(x, d, packId, PackBody(items)) {
        var k :| 0 <= k <= |PackBody(items)| && x == PackAppended(d, packId, PackBody(items)[..k]);
        TornPackReads(c, d, packId, "" + PackBody(items)[..k], h);
      } else {
        var j: nat :| j <= |items| && x == IndexAppended(PackAppended(d, packId, PackBody(items)), IndexDelta(items, packId)[..j]);
        assert "" + PackBody(items) == PackBody(items);
        assert x == Flushed(d, packId, items, j);
        FlushReads(c, d, packId, items, j, h);
      }
    }
  }

  /** The pack body, its index lines and the memory index after the first `k` buffered blobs. */
  ghost predicate Assembled(
    items: seq<Item>, packId: nat, m0: Index, k: nat, body: string, lines: seq<IndexLine>, m: Index)
    requires k <= |items|
  {
    body == PackBody(items[..k]) && lines == IndexDelta(items, packId)[..k] && m == Reindex(m0, lines)
  }

  lemma AssembledNext(
    items: seq<Item>, packId: nat, m0: Index, k: nat, body: string, lines: seq<IndexLine>, m: Index)
    requires k < |items| && Assembled(items, packId, m0, k, body, lines, m)
    ensures var it := items[k]; var loc := Loc(packId, |body| + |Header(it)|, |it.b64|);
      Assembled(items, packId, m0, k + 1, body + Header(it) + it.b64 + "\n", lines + [IndexLine(it.hash, loc)], m[it.hash := loc])
  {
    PackBodySnoc(items, k);
    SliceSnoc(IndexDelta(items, packId), k);
    ReindexSnoc(m0, IndexDelta(items, packId), k + 1);
  }

  // ------------------------------------------------------------- removal, on values

  method ListIndex(m: Index) returns (lines: seq<IndexLine>)
    ensures Lists(lines, m)
  {
    lines := [];
    var todo := m.Keys;
    assert forall h :: h !in m - todo;
    while todo != {}
      invariant todo <= m.Keys
      invariant ListsBut(lines, m, todo)
      decreases todo
    {
      var h :| h in todo;
      ListsMore(lines, m, todo, h);
      todo := todo - {h};
      lines := lines + [IndexLine(h, m[h])];
    }
    assert m - todo == m;
  }

  lemma SameHashSameBytes(c: Codec, d: Disk, hash: string, content: Bytes)
    requires Lawful(c) && Reads(c, d, hash).Some? && hash == c.hash(content)
    ensures Reads(c, d, hash) == Some(content)
  {
    assert NoCollision(c, Reads(c, d, hash).value, content);
  }

  /** The lines list the whole index but the hashes still to come. */
  ghost predicate ListsBut(lines: seq<IndexLine>, m: Index, todo: set<string>) {
    Lists(lines, m - todo)
  }

  lemma ListsMore(lines: seq<IndexLine>, m: Index, todo: set<string>, h: string)
    requires h in todo && todo <= m.Keys && ListsBut(lines, m, todo)
    ensures ListsBut(lines + [IndexLine(h, m[h])], m, todo - {h})
  {
    var more := lines + [IndexLine(h, m[h])];
    forall x | x in m - (todo - {h}) ensures exists k :: 0 <= k < |more| && more[k].hash == x {
      if x == h {
        assert more[|lines|].hash == x;
      } else {
        assert x in m - todo;
        var k :| 0 <= k < |lines| && lines[k].hash == x;
        assert more[k].hash == x;
      }
    }
  }

  lemma RewriteKeepsStep(
    c: Codec, d: Disk, d': Disk, m: Index, blobs: map<string, Bytes>, items: seq<Item>, pending: set<string>, next: nat)
    requires InStep(c, d, m, blobs, items, pending, next)
    requires d'.packs == d.packs && LoadIndex(d'.index) == m
    ensures InStep(c, d', m, blobs, items, pending, next)
    ensures TrustedEntries(c, d, m, next) ==> TrustedEntries(c, d', m, next)
  {
    forall h ensures BackedAt(c, d', m, blobs, pending, h) && EntryIn(m, LoadIndex(d'.index), h) {
      assert BackedAt(c, d, m, blobs, pending, h);
    }
    if TrustedEntries(c, d, m, next) {
      forall h ensures DecodesAt(c, d', m, h) {
        assert DecodesAt(c, d, m, h);
      }
    }
  }

  lemma DropKeepsStep(
    c: Codec, d: Disk, m: Index, blobs: map<string, Bytes>, items: seq<Item>, pending: set<string>, next: nat,
    hs: set<string>)
    requires InStep(c, d, m, blobs, items, pending, next)
    ensures InStep(c, d, m - hs, blobs - hs, items, pending, next)
    ensures TrustedEntries(c, d, m, next) ==> TrustedEntries(c, d, m - hs, next)
  {
    var m', blobs' := m - hs, blobs - hs;
    forall h ensures BackedAt(c, d, m', blobs', pending, h) && EntryIn(m', LoadIndex(d.index), h) {
      assert BackedAt(c, d, m, blobs, pending, h) && EntryIn(m, LoadIndex(d.index), h);
    }
    if TrustedEntries(c, d, m, next) {
      forall h ensures DecodesAt(c, d, m', h) && BelowAt(m', next, h) {
        assert DecodesAt(c, d, m, h) && BelowAt(m, next, h);
      }
    }
  }

  // ---------------------------------------------------- retiring packs, on values

  /** Removing a pack file and forgetting exactly its entries. */
  lemma RetireKeepsStep(
    c: Codec, d: Disk, m: Index, blobs: map<string, Bytes>, items: seq<Item>, pending: set<string>, next: nat, p: nat)
    requires InStep(c, d, m, blobs, items, pending, next)
    ensures var gone := Of(m, {p}); var d' := d.(packs := d.packs - {p});
      && InStep(c, d', m - gone, blobs - gone, items, pending, next)
      && (TrustedEntries(c, d, m, next) ==> TrustedEntries(c, d', m - gone, next))
  {
    var gone := Of(m, {p});
    var d', m', blobs' := d.(packs := d.packs - {p}), m - gone, blobs - gone;
    forall h ensures BackedAt(c, d', m', blobs', pending, h) && EntryIn(m', LoadIndex(d'.index), h) {
      assert BackedAt(c, d, m, blobs, pending, h) && EntryIn(m, LoadIndex(d.index), h);
    }
    if TrustedEntries(c, d, m, next) {
      forall h ensures DecodesAt(c, d', m', h) && BelowAt(m', next, h) {
        assert DecodesAt(c, d, m, h) && BelowAt(m, next, h);
      }
    }
  }

  /** Promised hashes are in the memory index, and none of them in these packs. */
  ghost predicate HeldOutside(m: Index, packs: set<nat>, ks: iset<string>) {
    forall h :: h in ks ==> h in m && m[h].packId !in packs
  }

  /** Removing a pack no promised hash leads to keeps the promise. */
  lemma RetireIsSafe(c: Codec, d: Disk, m: Index, p: nat, ks: iset<string>)
    requires Within(m, LoadIndex(d.index)) && Safe(c, d, ks) && HeldOutside(m, {p}, ks)
    ensures Safe(c, d.(packs := d.packs - {p}), ks)
  {
    forall h | h in ks ensures Reads(c, d.(packs := d.packs - {p}), h).Some? {
      assert EntryIn(m, LoadIndex(d.index), h);
    }
  }

  /** Every promised hash still in one of these packs is buffered. */
  ghost predicate Buffered(m: Index, items: seq<Item>, packs: set<nat>, ks: iset<string>) {
    forall h :: h in ks ==> h in m && (m[h].packId in packs ==> h in HashesOf(items))
  }

  /** With every kept blob of a pack that verifies buffered, no promised hash is left behind there. */
  lemma AllBuffered(c: Codec, d: Disk, m: Index, items: seq<Item>, keep: set<string>, p: nat, ks: iset<string>)
    requires Safe(c, d, ks) && Held(m, ks) && Within(m, LoadIndex(d.index)) && forall h :: h in ks ==> h in keep
    requires forall h :: h in Of(m, {p}) * keep && ReadVia(c, d, m, h).Some? ==> h in HashesOf(items)
    ensures Buffered(m, items, {p}, ks)
  {
    forall h | h in ks ensures h in m && (m[h].packId in {p} ==> h in HashesOf(items)) {
      assert EntryIn(m, LoadIndex(d.index), h);
      assert m[h].packId == p ==> h in Of(m, {p}) * keep;
    }
  }

  /** If what is buffered is the kept blobs of a pack that verify, those are its survivors; without a file there are none. */
  lemma AllSurvive(c: Codec, d: Disk, m: Index, items: seq<Item>, keep: set<string>, p: nat)
    requires forall h :: h in Of(m, {p}) * keep && ReadVia(c, d, m, h).Some? ==> h in HashesOf(items)
    ensures HashesOf(items) <= Of(m, {p}) * keep && (forall h :: h in HashesOf(items) ==> ReadVia(c, d, m, h).Some?) ==>
      HashesOf(items) == Survivors(c, d, m, keep, {p}) && (items != [] ==> p in d.packs)
  {
    if items != [] {
      assert items[0].hash in HashesOf(items);
    }
  }

  /** A flush leads every promised hash out of the packs it was buffered from. */
  lemma FlushLeadsOut(c: Codec, d: Disk, m: Index, packId: nat, items: seq<Item>, packs: set<nat>, ks: iset<string>)
    requires packId !in d.packs && (items == [] || packId !in packs)
    requires SoundItems(c, items) && Within(m, LoadIndex(d.index)) && Buffered(m, items, packs, ks)
    ensures HeldOutside(Reindex(m, IndexDelta(items, packId)), packs, ks)
  {
    forall h | h in ks
      ensures var m' := Reindex(m, IndexDelta(items, packId)); h in m' && m'[h].packId !in packs
    {
      FlushEntry(c, d, m, packId, items, h);
    }
  }

  /** Where one entry ends up when the packs are retired after a flush into pack `n`. */
  ghost predicate LedOutAt(m: Index, m': Index, moved: set<string>, packs: set<nat>, n: nat, h: string) {
    if h in moved then h in m' && m'[h].packId == n
    else
      && (h in m' <==> h in m && m[h].packId !in packs)
      && (h in m' ==> m'[h] == m[h])
  }

  ghost predicate LedOut(m: Index, m': Index, moved: set<string>, packs: set<nat>, n: nat) {
    forall h :: LedOutAt(m, m', moved, packs, n, h)
  }

  lemma FlushThenDrop(c: Codec, d: Disk, m: Index, packId: nat, items: seq<Item>, packs: set<nat>)
    requires packId !in d.packs && (items == [] || packId !in packs)
    requires SoundItems(c, items) && Within(m, LoadIndex(d.index))
    ensures var m1 := Reindex(m, IndexDelta(items, packId));
      LedOut(m, m1 - Of(m1, packs), HashesOf(items), packs, packId)
  {
    var m1 := Reindex(m, IndexDelta(items, packId));
    var m2 := m1 - Of(m1, packs);
    forall h ensures LedOutAt(m, m2, HashesOf(items), packs, packId, h) {
      FlushEntry(c, d, m, packId, items, h);
    }
  }

  lemma EmptyDelta(n: nat)
    ensures IndexDelta([], n) == []
  {
  }

  lemma OfSplit(m: Index, packs: set<nat>, p: nat)
    ensures (m - Of(m, packs)) - Of(m - Of(m, packs), {p}) == m - Of(m, packs + {p})
  {
  }

  lemma SafeThrough(c: Codec, d: Disk, x: Disk, ks: iset<string>)
    requires Safe(c, d, ks) && KeepsAll(c, d, x)
    ensures Safe(c, x, ks)
  {
  }

  // ------------------------------------------------------------ collection, on values

  /** The members of these packs that are kept and verify. */
  ghost function Survivors(c: Codec, d: Disk, m: Index, keep: set<string>, packs: set<nat>): set<string> {
    set h | h in Of(m, packs) && h in keep && ReadVia(c, d, m, h).Some?
  }

  /** The packs below `n` are as they were, but for the removed ones. */
  ghost predicate OldPacks(d: Disk, d': Disk, n: nat, removed: set<nat>) {
    forall p: nat :: p < n ==> OldPackAt(d, d', removed, p)
  }

  predicate OldPackAt(d: Disk, d': Disk, removed: set<nat>, p: nat) {
    && (p in d'.packs <==> p in d.packs && p !in removed)
    && (p in d'.packs ==> d'.packs[p] == d.packs[p])
  }

  /** Retired packs lose every entry; moved packs keep exactly their survivors, in packs from `n` on. */
  ghost predicate FatedAt(
    c: Codec, d: Disk, m: Index, m': Index, keep: set<string>, retired: set<nat>, moved: set<nat>, n: nat, h: string)
  {
    if h !in m || m[h].packId in retired then h !in m'
    else if m[h].packId in moved then
      (h in m' <==> h in Survivors(c, d, m, keep, moved)) && (h in m' ==> m'[h].packId >= n)
    else h in m' && m'[h] == m[h]
  }

  ghost predicate Fated(
    c: Codec, d: Disk, m: Index, m': Index, keep: set<string>, retired: set<nat>, moved: set<nat>, n: nat)
  {
    forall h :: FatedAt(c, d, m, m', keep, retired, moved, n, h)
  }

  /** Leading more packs out after some have been dealt with. */
  lemma FatedMore(
    c: Codec, d: Disk, m: Index, d1: Disk, m1: Index, m2: Index, keep: set<string>, retired: set<nat>,
    moved: set<nat>, n: nat, packs: set<nat>, n1: nat)
    requires Fated(c, d, m, m1, keep, retired, moved, n) && n1 >= n
    requires packs !! moved && packs !! retired
    requires forall p :: p in packs ==> p < n && OldPackAt(d, d1, {}, p)
    requires LedOut(m1, m2, Survivors(c, d1, m1, keep, packs), packs, n1)
    ensures Fated(c, d, m, m2, keep, retired, moved + packs, n)
  {
    forall h ensures FatedAt(c, d, m, m2, keep, retired, moved + packs, n, h) {
      assert FatedAt(c, d, m, m1, keep, retired, moved, n, h);
      assert LedOutAt(m1, m2, Survivors(c, d1, m1, keep, packs), packs, n1, h);
      if h in m && m[h].packId in packs {
        assert OldPackAt(d, d1, {}, m[h].packId);
        assert h in Survivors(c, d1, m1, keep, packs) <==> h in Survivors(c, d, m, keep, moved + packs);
      }
    }
  }

  lemma FatedRetired(c: Codec, d: Disk, m: Index, keep: set<string>, retired: set<nat>, n: nat)
    ensures Fated(c, d, m, m - Of(m, retired), keep, retired, {}, n)
  {
    forall h ensures FatedAt(c, d, m, m - Of(m, retired), keep, retired, {}, n, h) {
    }
  }

  lemma {:induction false} CardinalityOfSubset<T>(xs: set<T>, ys: set<T>)
    requires xs <= ys
    ensures |xs| <= |ys|
    decreases xs
  {
    if xs != {} {
      var x :| x in xs;
      CardinalityOfSubset(xs - {x}, ys - {x});
    }
  }

  /** Retiring packs into at most one new one: there are no more packs than before. */
  lemma NoMorePacks(m: Index, m': Index, moved: set<string>, packs: set<nat>, n: nat)
    requires LedOut(m, m', moved, packs, n)
    requires moved != {} ==> packs * PackIds(m) != {}
    ensures |PackIds(m')| <= |PackIds(m)|
  {
    var rest := PackIds(m) - packs;
    var added: set<nat> := if moved == {} then {} else {n};
    forall q | q in PackIds(m') ensures q in rest + added {
      var h :| h in m' && m'[h].packId == q;
      assert LedOutAt(m, m', moved, packs, n, h);
    }
    CardinalityOfSubset(PackIds(m'), rest + added);
    if moved != {} {
      var p :| p in packs && p in PackIds(m);
      CardinalityOfSubset(rest, PackIds(m) - {p});
    } else {
      CardinalityOfSubset(rest, PackIds(m));
    }
  }

  // ------------------------------------------------------- which packs are collected

  /** A pack without a file, or whose file has no modification time, is never old enough. */
  predicate Aged(d: Disk, mtime: map<nat, int>, retentionMs: int, now: int, p: nat) {
    p in d.packs && p in mtime && now - mtime[p] >= retentionMs
  }

  function LiveCount(m: Index, keep: set<string>, p: nat): nat {
    |Of(m, {p}) * keep|
  }

  /** The live fraction is below one half (`COMPACT_LIVE_FRACTION`). */
  predicate MostlyDead(m: Index, keep: set<string>, p: nat) {
    LiveCount(m, keep, p) < |Of(m, {p})| && 2 * LiveCount(m, keep, p) < |Of(m, {p})|
  }

  function GcRetired(d: Disk, m: Index, keep: set<string>, mtime: map<nat, int>, retentionMs: int, now: int): set<nat> {
    set p | p in PackIds(m) && Aged(d, mtime, retentionMs, now, p) && LiveCount(m, keep, p) == 0
  }

  function GcCompacted(d: Disk, m: Index, keep: set<string>, mtime: map<nat, int>, retentionMs: int, now: int): set<nat> {
    set p | p in PackIds(m) && Aged(d, mtime, retentionMs, now, p) && LiveCount(m, keep, p) > 0 && MostlyDead(m, keep, p)
  }

  /** A promised hash is kept, so the pack it is in has a live blob. */
  lemma DeadHoldsNoPromise(m: Index, keep: set<string>, ks: iset<string>, p: nat)
    requires Held(m, ks) && LiveCount(m, keep, p) == 0
    requires forall h :: h in ks ==> h in keep
    ensures HeldOutside(m, {p}, ks)
  {
    forall h | h in ks ensures h in m && m[h].packId != p {
      assert h in keep && h !in Of(m, {p}) * keep;
    }
  }

  lemma SameMembers(m: Index, retired: set<nat>, p: nat)
    requires p !in retired
    ensures Of(m - Of(m, retired), {p}) == Of(m, {p})
  {
  }

  // ----------------------------------------------------------- a collection pass

  /**
   * What a pass started from: whether its buffer was empty, the disk and the index, what to keep,
   * the kept hashes that read, and the first unused pack id.
   */
  datatype Pass = Pass(
    quiet: bool, disk: Disk, index: Index, keep: set<string>, ghost promised: iset<string>, next: nat)

  /** The kept hashes the store can read; over a freshly loaded index, those a reload reads. */
  ghost function Promised(c: Codec, d: Disk, m: Index, keep: set<string>): iset<string> {
    iset h | h in keep && ReadVia(c, d, m, h).Some?
  }

  ghost predicate Promises(c: Codec, pass: Pass) {
    forall h :: h in pass.promised ==> h in pass.keep
  }

  /** Part way through: the promise holds; and a quiet pass has dealt with `retired` and `moved` exactly. */
  ghost predicate Passing(
    c: Codec, pass: Pass, d: Disk, m: Index, next: nat, retired: set<nat>, moved: set<nat>)
  {
    && Safe(c, d, pass.promised) && Held(m, pass.promised) && Promises(c, pass)
    && pass.next <= next && Older(m, pass.index, pass.next) && PacksBelow(pass.disk, pass.next)
    && OldPacks(pass.disk, d, pass.next, retired + moved)
    && (pass.quiet ==> PassedQuietly(c, pass, m, retired, moved))
  }

  /** An entry in a pack older than the pass is as it was. */
  ghost predicate Older(m: Index, m0: Index, next: nat) {
    forall h :: OlderAt(m, m0, next, h)
  }

  predicate OlderAt(m: Index, m0: Index, next: nat, h: string) {
    h in m && m[h].packId < next ==> h in m0 && m0[h] == m[h]
  }

  ghost predicate PassedQuietly(c: Codec, pass: Pass, m: Index, retired: set<nat>, moved: set<nat>) {
    && Fated(c, pass.disk, pass.index, m, pass.keep, retired, moved, pass.next)
    && |PackIds(m)| <= |PackIds(pass.index)|
  }

  /** Packs still to be dealt with, with ids given out before the pass if it keeps accounts. */
  ghost predicate NotYetTaken(pass: Pass, retired: set<nat>, moved: set<nat>, packs: set<nat>) {
    forall p :: p in packs ==> (pass.quiet ==> p < pass.next) && p !in retired && p !in moved
  }

  lemma PassOn(
    c: Codec, pass: Pass, d: Disk, m: Index, next: nat, retired: set<nat>, moved: set<nat>,
    d': Disk, m': Index, next': nat, packs: set<nat>, out: set<string>)
    requires Passing(c, pass, d, m, next, retired, moved) && NotYetTaken(pass, retired, moved, packs)
    requires Safe(c, d', pass.promised) && Held(m', pass.promised) && next <= next'
    requires pass.quiet ==> out == Survivors(c, d, m, pass.keep, packs)
    requires LedOut(m, m', out, packs, next) && OldPacks(d, d', next, packs)
    ensures Passing(c, pass, d', m', next', retired, moved + packs)
  {
    forall h ensures OlderAt(m', pass.index, pass.next, h) {
      assert LedOutAt(m, m', out, packs, next, h) && OlderAt(m, pass.index, pass.next, h);
    }
    forall p: nat | p < pass.next
      ensures OldPackAt(pass.disk, d', retired + (moved + packs), p)
      ensures p in packs ==> OldPackAt(pass.disk, d, {}, p)
    {
      assert OldPackAt(pass.disk, d, retired + moved, p) && OldPackAt(d, d', packs, p);
    }
    if pass.quiet {
      FatedMore(c, pass.disk, pass.index, d, m, m', pass.keep, retired, moved, pass.next, packs, next);
      if out != {} {
        var h :| h in out;
        assert m[h].packId in packs * PackIds(m);
      }
      NoMorePacks(m, m', out, packs, next);
    }
  }

  /** A pass begins with nothing dealt with. */
  lemma PassStarts(c: Codec, pass: Pass, m: Index)
    requires pass.index == m && Within(m, LoadIndex(pass.disk.index)) && PacksBelow(pass.disk, pass.next)
    requires pass.promised == Promised(c, pass.disk, m, pass.keep)
    ensures Passing(c, pass, pass.disk, m, pass.next, {}, {})
  {
    forall h ensures OlderAt(m, m, pass.next, h) {
    }
    forall h | h in pass.promised ensures Reads(c, pass.disk, h).Some? {
      assert EntryIn(m, LoadIndex(pass.disk.index), h);
    }
    forall h ensures FatedAt(c, pass.disk, m, m, pass.keep, {}, {}, pass.next, h) {
    }
    forall p: nat | p < pass.next ensures OldPackAt(pass.disk, pass.disk, {} + {}, p) {
    }
  }

  /** `m'` is `m` without the entries of these packs. */
  ghost predicate WithoutPacks(m: Index, m': Index, packs: set<nat>) {
    forall h :: WithoutAt(m, m', packs, h)
  }

  predicate WithoutAt(m: Index, m': Index, packs: set<nat>, h: string) {
    (h in m' <==> h in m && m[h].packId !in packs) && (h in m' ==> m'[h] == m[h])
  }

  lemma WithoutIs(m: Index, m': Index, packs: set<nat>)
    ensures WithoutPacks(m, m', packs) <==> m' == m - Of(m, packs)
  {
    if WithoutPacks(m, m', packs) {
      forall h ensures (h in m' <==> h in m - Of(m, packs)) && (h in m' ==> m'[h] == m[h]) {
        assert WithoutAt(m, m', packs, h);
      }
    }
  }

  ghost predicate SafeAt(c: Codec, before: iset<Disk>, after: iset<Disk>, ks: iset<string>, x: Disk) {
    x in after ==> x in before || Safe(c, x, ks)
  }

  /** The disk states since `before` all keep the promise. */
  ghost predicate OnlySafe(c: Codec, before: iset<Disk>, after: iset<Disk>, ks: iset<string>) {
    before <= after && forall x :: SafeAt(c, before, after, ks, x)
  }

  lemma OnlySafeThen(c: Codec, before: iset<Disk>, now: iset<Disk>, after: iset<Disk>, ks: iset<string>)
    requires OnlySafe(c, before, now, ks) && OnlySafe(c, now, after, ks)
    ensures OnlySafe(c, before, after, ks)
  {
    forall x ensures SafeAt(c, before, after, ks, x) {
      assert SafeAt(c, before, now, ks, x) && SafeAt(c, now, after, ks, x);
    }
  }

  /** One of these packs held a slice that is not base64 when the pass began, or its id was still to be given out. */
  ghost predicate MayThrow(c: Codec, pass: Pass, packs: set<nat>) {
    exists p :: p in packs && (p < pass.next ==> Undecodable(c, pass.disk, pass.index, p))
  }

  /** Where every entry names a pack id given out, and every slice decodes, nothing throws. */
  lemma TrustedNeverThrows(c: Codec, pass: Pass, packs: set<nat>)
    requires TrustedEntries(c, pass.disk, pass.index, pass.next) && packs <= PackIds(pass.index)
    ensures !MayThrow(c, pass, packs)
  {
    forall p | p in packs ensures p < pass.next && !Undecodable(c, pass.disk, pass.index, p) {
      var h :| h in pass.index && pass.index[h].packId == p;
      assert BelowAt(pass.index, pass.next, h);
      forall x | x in pass.index ensures DecodesAt(c, pass.disk, pass.index, x) {
      }
    }
  }

  lemma GcPicks(pass: Pass, mtime: map<nat, int>, retentionMs: int, now: int)
    requires PacksBelow(pass.disk, pass.next)
    ensures var retired, compacted :=
        GcRetired(pass.disk, pass.index, pass.keep, mtime, retentionMs, now),
        GcCompacted(pass.disk, pass.index, pass.keep, mtime, retentionMs, now);
      && (forall p: nat :: DeadIn(pass, retired, p)) && compacted !! retired && forall p :: p in compacted ==> p < pass.next
  {
  }

  /** The file and the entries of a pack are as they were. */
  ghost predicate KeptWhole(d0: Disk, m0: Index, d: Disk, m: Index, p: nat) {
    && (p in d0.packs ==> p in d.packs && d.packs[p] == d0.packs[p])
    && forall h :: h in m0 && m0[h].packId == p ==> h in m && m[h] == m0[h]
  }

  /** A pack without a file, every blob it held forgotten. */
  ghost predicate Removed(m0: Index, d: Disk, m: Index, p: nat) {
    p !in d.packs && forall h :: h in m0 && m0[h].packId == p ==> h !in m
  }

  /** A pack without a file; of its blobs just the kept ones that verify are still there, in packs from `n` on. */
  ghost predicate Rewrote(c: Codec, d0: Disk, m0: Index, keep: set<string>, d: Disk, m: Index, p: nat, n: nat) {
    && p !in d.packs
    && forall h :: h in m0 && m0[h].packId == p ==>
         (h in m <==> h in keep && ReadVia(c, d0, m0, h).Some?) && (h in m ==> m[h].packId >= n)
  }

  /** What dealing with a pack, or not, comes to. */
  lemma DealtWith(c: Codec, pass: Pass, d: Disk, m: Index, next: nat, retired: set<nat>, moved: set<nat>, p: nat)
    requires Passing(c, pass, d, m, next, retired, moved) && pass.quiet && moved !! retired
    ensures p !in retired && p !in moved ==> KeptWhole(pass.disk, pass.index, d, m, p)
    ensures p in retired && p < pass.next ==> Removed(pass.index, d, m, p)
    ensures p in moved && p < pass.next ==> Rewrote(c, pass.disk, pass.index, pass.keep, d, m, p, pass.next)
  {
    if p < pass.next {
      assert OldPackAt(pass.disk, d, retired + moved, p);
    }
    forall h | h in pass.index && pass.index[h].packId == p
      ensures p in retired ==> h !in m
      ensures p in moved ==> (h in m <==> h in pass.keep && ReadVia(c, pass.disk, pass.index, h).Some?)
      ensures p in moved && h in m ==> m[h].packId >= pass.next
      ensures p !in retired && p !in moved ==> h in m && m[h] == pass.index[h]
    {
      assert FatedAt(c, pass.disk, pass.index, m, pass.keep, retired, moved, pass.next, h);
    }
  }

  /** What a collection from an empty buffer does to one pack, by its age and its live blobs. */
  ghost predicate Collected(
    c: Codec, d0: Disk, m0: Index, keep: set<string>, d: Disk, m: Index, p: nat, n: nat)
  {
    var members := set h | h in m0 && m0[h].packId == p;
    var live := |members * keep|;
    && (members != {} && live == 0 ==> Removed(m0, d, m, p))
    && (live > 0 && 2 * live < |members| ==> Rewrote(c, d0, m0, keep, d, m, p, n))
    && (2 * live >= |members| ==> KeptWhole(d0, m0, d, m, p))
  }

  /** A pack without a file, or undated, or young stays whole, however far the collection got. */
  lemma YoungStaysWhole(
    c: Codec, pass: Pass, d: Disk, m: Index, next: nat, mtime: map<nat, int>, retentionMs: int, now: int, done: set<nat>, p: nat)
    requires Passing(c, pass, d, m, next, GcRetired(pass.disk, pass.index, pass.keep, mtime, retentionMs, now), done) && pass.quiet
    requires done <= GcCompacted(pass.disk, pass.index, pass.keep, mtime, retentionMs, now)
    requires !(p in pass.disk.packs && p in mtime && now - mtime[p] >= retentionMs)
    ensures KeptWhole(pass.disk, pass.index, d, m, p)
  {
    DealtWith(c, pass, d, m, next, GcRetired(pass.disk, pass.index, pass.keep, mtime, retentionMs, now), done, p);
  }

  /** Past the window a pack is collected by its live blobs. */
  lemma OldIsCollected(
    c: Codec, pass: Pass, d: Disk, m: Index, next: nat, mtime: map<nat, int>, retentionMs: int, now: int, p: nat)
    requires var retired, compacted := GcRetired(pass.disk, pass.index, pass.keep, mtime, retentionMs, now),
        GcCompacted(pass.disk, pass.index, pass.keep, mtime, retentionMs, now);
      Passing(c, pass, d, m, next, retired, compacted) && pass.quiet
    requires p in pass.disk.packs && p in mtime && now - mtime[p] >= retentionMs
    ensures Collected(c, pass.disk, pass.index, pass.keep, d, m, p, pass.next)
  {
    var retired, compacted := GcRetired(pass.disk, pass.index, pass.keep, mtime, retentionMs, now),
      GcCompacted(pass.disk, pass.index, pass.keep, mtime, retentionMs, now);
    DealtWith(c, pass, d, m, next, retired, compacted, p);
    CountsOf(pass.index, pass.keep, p);
  }

  lemma CountsOf(m: Index, keep: set<string>, p: nat)
    ensures (set h | h in m && m[h].packId == p) == Of(m, {p})
    ensures LiveCount(m, keep, p) <= |Of(m, {p})| && (p in PackIds(m) <==> |Of(m, {p})| > 0)
  {
    CardinalityOfSubset(Of(m, {p}) * keep, Of(m, {p}));
    if p in PackIds(m) {
      var h :| h in m && m[h].packId == p;
      assert h in Of(m, {p});
    }
    if Of(m, {p}) != {} {
      var h :| h in Of(m, {p});
    }
  }

  /** What a consolidation from an empty buffer does to one pack given out before, by its live blobs. */
  ghost predicate Consolidated(
    c: Codec, d0: Disk, m0: Index, keep: set<string>, threshold: nat, d: Disk, m: Index, p: nat, n: nat)
  {
    var members := set h | h in m0 && m0[h].packId == p;
    var live := |members * keep|;
    && (members != {} && live == 0 ==> Removed(m0, d, m, p))
    && (0 < live < threshold && p in d0.packs ==> Rewrote(c, d0, m0, keep, d, m, p, n))
    && (0 < live && threshold <= live < |members| ==> Rewrote(c, d0, m0, keep, d, m, p, n))
    && (live == |members| && (threshold <= live || p !in d0.packs) ==> KeptWhole(d0, m0, d, m, p))
  }

  lemma ConsolidationMeans(
    c: Codec, pass: Pass, d: Disk, m: Index, next: nat, threshold: nat, p: nat)
    requires var merging := Present(pass.disk, Small(pass.index, pass.keep, threshold));
      Passing(c, pass, d, m, next, WhollyDead(pass.index, pass.keep), merging + LargeMixed(pass.index, pass.keep, threshold))
    requires pass.quiet && p < pass.next
    ensures Consolidated(c, pass.disk, pass.index, pass.keep, threshold, d, m, p, pass.next)
  {
    var merging := Present(pass.disk, Small(pass.index, pass.keep, threshold));
    DealtWith(c, pass, d, m, next, WhollyDead(pass.index, pass.keep), merging + LargeMixed(pass.index, pass.keep, threshold), p);
    CountsOf(pass.index, pass.keep, p);
  }

  lemma OnlySafeNow(c: Codec, now: iset<Disk>, ks: iset<string>)
    ensures OnlySafe(c, now, now, ks)
  {
    forall x ensures SafeAt(c, now, now, ks, x) {
    }
  }

  ghost predicate KeepingAt(c: Codec, d: Disk, before: iset<Disk>, after: iset<Disk>, x: Disk) {
    x in after ==> x in before || KeepsAll(c, d, x)
  }

  /** The disk states since `before` all read what `d` reads. */
  ghost predicate OnlyKeeping(c: Codec, d: Disk, before: iset<Disk>, after: iset<Disk>) {
    before <= after && forall x :: KeepingAt(c, d, before, after, x)
  }

  lemma FlushOnlySafe(c: Codec, d: Disk, before: iset<Disk>, after: iset<Disk>, ks: iset<string>)
    requires Safe(c, d, ks) && OnlyKeeping(c, d, before, after)
    ensures OnlySafe(c, before, after, ks)
  {
    forall x ensures SafeAt(c, before, after, ks, x) {
      assert KeepingAt(c, d, before, after, x);
      if x in after && x !in before {
        SafeThrough(c, d, x, ks);
      }
    }
  }

  /** If it is one of these packs, it holds no live blob. */
  predicate DeadIn(pass: Pass, packs: set<nat>, p: nat) {
    p in packs ==> LiveCount(pass.index, pass.keep, p) == 0
  }

  /** All of these packs but `todo` are retired, and nothing else has changed. */
  ghost predicate Retiring(c: Codec, pass: Pass, d: Disk, m: Index, packs: set<nat>, todo: set<nat>) {
    && todo <= packs
    && Passing(c, pass, d, m, pass.next, packs - todo, {})
    && WithoutPacks(pass.index, m, packs - todo)
  }

  lemma RetiringStarts(c: Codec, pass: Pass, d: Disk, packs: set<nat>)
    requires Passing(c, pass, d, pass.index, pass.next, {}, {})
    ensures Retiring(c, pass, d, pass.index, packs, packs)
  {
    assert packs - packs == {};
    WithoutIs(pass.index, pass.index, {});
    assert pass.index - Of(pass.index, {}) == pass.index;
  }

  /** Retiring a dead pack before any has been moved. */
  lemma PassRetires(c: Codec, pass: Pass, d: Disk, m: Index, retired: set<nat>, p: nat)
    requires Passing(c, pass, d, m, pass.next, retired, {})
    requires m == pass.index - Of(pass.index, retired)
    ensures var d', m' := d.(packs := d.packs - {p}), m - Of(m, {p});
      Safe(c, d', pass.promised) && Held(m', pass.promised) ==> Passing(c, pass, d', m', pass.next, retired + {p}, {})
    ensures m - Of(m, {p}) == pass.index - Of(pass.index, retired + {p})
  {
    OfSplit(pass.index, retired, p);
    FatedRetired(c, pass.disk, pass.index, pass.keep, retired + {p}, pass.next);
    var d', m' := d.(packs := d.packs - {p}), m - Of(m, {p});
    forall h ensures OlderAt(m', pass.index, pass.next, h) {
      assert OlderAt(m, pass.index, pass.next, h);
    }
    forall q: nat | q < pass.next ensures OldPackAt(pass.disk, d', (retired + {p}) + {}, q) {
      assert OldPackAt(pass.disk, d, retired + {}, q);
    }
    CardinalityOfSubset(PackIds(m'), PackIds(m));
  }

  /** Rewriting the index file from memory keeps the promise of a pass. */
  lemma PassRewrites(
    c: Codec, pass: Pass, d: Disk, d': Disk, m: Index, next: nat, retired: set<nat>, moved: set<nat>)
    requires Passing(c, pass, d, m, next, retired, moved) && Within(m, LoadIndex(d.index))
    requires d'.packs == d.packs && LoadIndex(d'.index) == m
    ensures Passing(c, pass, d', m, next, retired, moved)
  {
    forall h | h in pass.promised ensures Reads(c, d', h).Some? {
      assert EntryIn(m, LoadIndex(d.index), h);
    }
    forall p: nat | p < pass.next ensures OldPackAt(pass.disk, d', retired + moved, p) {
      assert OldPackAt(pass.disk, d, retired + moved, p);
    }
  }

  /** A pack older than the pass and not yet dealt with throws now only if it did at the start. */
  lemma StillDecodes(c: Codec, pass: Pass, d: Disk, m: Index, next: nat, retired: set<nat>, moved: set<nat>, p: nat)
    requires Passing(c, pass, d, m, next, retired, moved) && p < pass.next && p !in retired && p !in moved
    requires Undecodable(c, d, m, p)
    ensures Undecodable(c, pass.disk, pass.index, p)
  {
    var h :| h in m && m[h].packId == p && !DecodesAt(c, d, m, h);
    assert OlderAt(m, pass.index, pass.next, h) && OldPackAt(pass.disk, d, retired + moved, p);
    assert !DecodesAt(c, pass.disk, pass.index, h);
  }

  // --------------------------------------------------------------- consolidation

  function WhollyDead(m: Index, keep: set<string>): set<nat> {
    set p | p in PackIds(m) && LiveCount(m, keep, p) == 0
  }

  /** Packs with few live blobs. */
  function Small(m: Index, keep: set<string>, threshold: nat): set<nat> {
    set p | p in PackIds(m) && 0 < LiveCount(m, keep, p) < threshold
  }

  /** Packs with enough live blobs and some dead ones. */
  function LargeMixed(m: Index, keep: set<string>, threshold: nat): set<nat> {
    set p | p in PackIds(m) && LiveCount(m, keep, p) > 0 && threshold <= LiveCount(m, keep, p) < |Of(m, {p})|
  }

  lemma OfCardinality(m: Index, packs: set<nat>, p: nat)
    requires p !in packs
    ensures |Of(m, packs + {p})| == |Of(m, packs)| + |Of(m, {p})|
  {
    assert Of(m, packs + {p}) == Of(m, packs) + Of(m, {p});
    assert Of(m, packs) !! Of(m, {p});
  }

  /** What the members of some packs come to, pack by pack. */
  method CountMembers(m: Index, packs: set<nat>) returns (n: nat)
    ensures n == |Of(m, packs)|
  {
    n := 0;
    var todo := packs;
    ghost var done: set<nat> := {};
    assert Of(m, {}) == {};
    while todo != {}
      invariant todo !! done && todo + done == packs
      invariant n == |Of(m, done)|
      decreases todo
    {
      var p :| p in todo;
      OfCardinality(m, done, p);
      n := n + |Of(m, {p})|;
      done, todo := done + {p}, todo - {p};
    }
    assert done == packs;
  }

  lemma LiveCardinality(m: Index, keep: set<string>, packs: set<nat>, p: nat)
    requires p !in packs
    ensures |Of(m, packs + {p}) * keep| == |Of(m, packs) * keep| + LiveCount(m, keep, p)
  {
    var xs, ys := Of(m, packs) * keep, Of(m, {p}) * keep;
    assert Of(m, packs + {p}) * keep == xs + ys;
    assert xs !! ys;
  }

  /** The live members of some packs, pack by pack. */
  method CountLive(m: Index, keep: set<string>, packs: set<nat>) returns (n: nat)
    ensures n == |Of(m, packs) * keep| && n <= |Of(m, packs)|
  {
    n := 0;
    var todo := packs;
    ghost var done: set<nat> := {};
    assert Of(m, {}) * keep == {};
    while todo != {}
      invariant todo !! done && todo + done == packs
      invariant n == |Of(m, done) * keep|
      decreases todo
    {
      var p :| p in todo;
      LiveCardinality(m, keep, done, p);
      n := n + LiveCount(m, keep, p);
      done, todo := done + {p}, todo - {p};
    }
    assert done == packs;
    CardinalityOfSubset(Of(m, packs) * keep, Of(m, packs));
  }

  /** In the middle of a merge: what is buffered, and the packs waiting to be removed. */
  ghost predicate Merging(
    c: Codec, pass: Pass, d: Disk, m: Index, items: seq<Item>, next: nat, retired: set<nat>, moved: set<nat>,
    waiting: set<nat>)
  {
    && Passing(c, pass, d, m, next, retired, moved)
    && Buffered(m, items, waiting, pass.promised)
    && NotYetTaken(pass, retired, moved, waiting) && (forall p :: p in waiting ==> p < pass.next)
    && (pass.quiet ==> HashesOf(items) == Survivors(c, d, m, pass.keep, waiting))
  }

  /** Nothing waits before the first pack is merged. */
  lemma MergeStarts(c: Codec, pass: Pass, d: Disk, m: Index, items: seq<Item>, next: nat, retired: set<nat>, moved: set<nat>)
    requires Passing(c, pass, d, m, next, retired, moved) && (pass.quiet ==> items == [])
    ensures Merging(c, pass, d, m, items, next, retired, moved, {})
  {
  }

  /** One more pack buffered: all its surviving members, and of it nothing else. */
  lemma MergeOneMore(
    c: Codec, pass: Pass, d: Disk, m: Index, items: seq<Item>, next: nat, retired: set<nat>, moved: set<nat>,
    waiting: set<nat>, p: nat, items': seq<Item>)
    requires Merging(c, pass, d, m, items, next, retired, moved, waiting) && Within(m, LoadIndex(d.index))
    requires p < pass.next && p !in retired && p !in moved
    requires HashesOf(items') == HashesOf(items) + Survivors(c, d, m, pass.keep, {p})
    ensures Merging(c, pass, d, m, items', next, retired, moved, waiting + {p})
  {
    forall h | h in pass.promised ensures h in m && (m[h].packId in waiting + {p} ==> h in HashesOf(items')) {
      assert EntryIn(m, LoadIndex(d.index), h);
    }
    assert Survivors(c, d, m, pass.keep, waiting + {p})
        == Survivors(c, d, m, pass.keep, waiting) + Survivors(c, d, m, pass.keep, {p});
  }

  /** A pack not yet dealt with still has exactly the members it had, as far as it has any. */
  lemma MembersNow(c: Codec, pass: Pass, d: Disk, m: Index, next: nat, retired: set<nat>, moved: set<nat>, p: nat)
    requires Passing(c, pass, d, m, next, retired, moved) && p < pass.next
    ensures Of(m, {p}) <= Of(pass.index, {p})
    ensures pass.quiet && p !in retired && p !in moved ==> Of(m, {p}) == Of(pass.index, {p})
    ensures p !in retired && p !in moved ==> (p in d.packs <==> p in pass.disk.packs)
    ensures pass.quiet && p !in retired && p !in moved ==>
      Survivors(c, d, m, pass.keep, {p}) == Survivors(c, pass.disk, pass.index, pass.keep, {p})
  {
    forall h ensures h in Of(m, {p}) ==> h in Of(pass.index, {p}) {
      assert OlderAt(m, pass.index, pass.next, h);
    }
    assert OldPackAt(pass.disk, d, retired + moved, p);
    if pass.quiet && p !in retired && p !in moved {
      forall h ensures h in Of(pass.index, {p}) ==> h in Of(m, {p}) {
        assert FatedAt(c, pass.disk, pass.index, m, pass.keep, retired, moved, pass.next, h);
      }
      forall h | h in Of(m, {p}) ensures ReadVia(c, d, m, h) == ReadVia(c, pass.disk, pass.index, h) {
        assert OlderAt(m, pass.index, pass.next, h);
      }
    }
  }

  /** Of a pack's members and survivors, all but `todo` are counted, and the survivors buffered. */
  ghost predicate Counted(
    members: set<string>, live: set<string>, todo: set<string>, items0: seq<Item>, items: seq<Item>, kept: nat,
    dropped: nat)
  {
    && kept + dropped == |members - todo|
    && kept == |live - todo|
    && |items| == |items0| + kept
    && HashesOf(items) == HashesOf(items0) + (live - todo)
  }

  /** One hash among a pack's members and survivors. */
  ghost predicate MemberAt(
    c: Codec, d: Disk, m: Index, keep: set<string>, p: nat, members: set<string>, live: set<string>, h: string)
  {
    && (h in members <==> h in m && m[h].packId == p)
    && (h in live <==> h in members && h in keep && ReadVia(c, d, m, h).Some?)
  }

  ghost predicate MembersAre(
    c: Codec, d: Disk, m: Index, keep: set<string>, p: nat, members: set<string>, live: set<string>)
  {
    live <= members && forall h :: MemberAt(c, d, m, keep, p, members, live, h)
  }

  lemma MembersOf(c: Codec, d: Disk, m: Index, keep: set<string>, p: nat)
    ensures MembersAre(c, d, m, keep, p, Of(m, {p}), Survivors(c, d, m, keep, {p}))
  {
    forall h ensures MemberAt(c, d, m, keep, p, Of(m, {p}), Survivors(c, d, m, keep, {p}), h) {
    }
  }

  lemma CountedAll(
    members: set<string>, live: set<string>, all: set<string>, items: seq<Item>)
    requires live <= members <= all
    ensures Counted(members, live, all, items, items, 0, 0)
  {
    assert members - all == {} && live - all == {};
  }

  lemma CountStep(
    members: set<string>, live: set<string>, todo: set<string>, items0: seq<Item>, items: seq<Item>,
    items': seq<Item>, kept: nat, dropped: nat, h: string)
    requires h in todo && live <= members && Counted(members, live, todo, items0, items, kept, dropped)
    requires |items'| == |items| + if h in live then 1 else 0
    requires HashesOf(items') == HashesOf(items) + if h in live then {h} else {}
    ensures var k, d := if h in live then 1 else 0, if h in members && h !in live then 1 else 0;
      Counted(members, live, todo - {h}, items0, items', kept + k, dropped + d)
  {
    OneLess(members, todo, h);
    OneLess(live, todo, h);
  }

  lemma CountedDone(
    members: set<string>, live: set<string>, items0: seq<Item>, items: seq<Item>, kept: nat, dropped: nat)
    requires Counted(members, live, {}, items0, items, kept, dropped)
    ensures |items| == |items0| + kept && HashesOf(items) == HashesOf(items0) + live && kept == |live|
    ensures kept + dropped == |members|
  {
    assert members - {} == members && live - {} == live;
  }

  lemma OneLess(all: set<string>, todo: set<string>, h: string)
    requires h in todo
    ensures all - (todo - {h}) == (all - todo) + if h in all then {h} else {}
    ensures |all - (todo - {h})| == |all - todo| + if h in all then 1 else 0
  {
    var before := all - todo;
    if h in all {
      assert all - (todo - {h}) == before + {h};
    } else {
      assert all - (todo - {h}) == before;
    }
  }

  // ------------------------------------------------------ the course of a merge

  /** What a merge has written and has buffered. */
  datatype Tally = Tally(written: nat, buffered: nat)

  /** One pack further: a pack without a file is passed over, others are merged, and a full buffer is flushed. */
  function TallyNext(sizes: map<nat, nat>, flushEvery: nat, t: Tally, p: nat): Tally {
    if p !in sizes then t
    else
      var buffered := t.buffered + sizes[p];
      if buffered < flushEvery then Tally(t.written, buffered)
      else Tally(t.written + if buffered == 0 then 0 else 1, 0)
  }

  /** The course over packs in order, `sizes` saying how many kept blobs each pack on disk holds. */
  function TallyAfter(sizes: map<nat, nat>, flushEvery: nat, order: seq<nat>): Tally
    decreases |order|
  {
    if order == [] then Tally(0, 0)
    else
      var n := |order| - 1;
      TallyNext(sizes, flushEvery, TallyAfter(sizes, flushEvery, order[..n]), order[n])
  }

  /** By the turn of the `k`-th pack the merge has given its id out to a pack of its own. */
  predicate ReusedAt(sizes: map<nat, nat>, flushEvery: nat, order: seq<nat>, next: nat, k: nat)
    requires k < |order|
  {
    next <= order[k] < next + TallyAfter(sizes, flushEvery, order[..k]).written
  }

  predicate Reuses(sizes: map<nat, nat>, flushEvery: nat, order: seq<nat>, next: nat) {
    exists k: nat :: k < |order| && ReusedAt(sizes, flushEvery, order, next, k)
  }

  ghost function SizesOf(c: Codec, d: Disk, m: Index, keep: set<string>, order: seq<nat>): map<nat, nat> {
    map p | p in order && p in d.packs :: |Survivors(c, d, m, keep, {p})|
  }

  /** The first `k` packs. */
  function Visited(order: seq<nat>, k: nat): set<nat>
    requires k <= |order|
  {
    set i | 0 <= i < k :: order[i]
  }

  /** Each pack once. */
  predicate EachOnce(order: seq<nat>, packs: set<nat>) {
    && (forall i, j :: 0 <= i < j < |order| ==> order[i] != order[j])
    && packs == Visited(order, |order|)
  }

  lemma VisitedNext(order: seq<nat>, k: nat)
    requires k < |order|
    ensures Visited(order, k + 1) == Visited(order, k) + {order[k]}
    ensures order[..k + 1][..k] == order[..k]
  {
  }

  lemma VisitedNot(order: seq<nat>, packs: set<nat>, k: nat)
    requires k < |order| && EachOnce(order, packs)
    ensures order[k] in packs && order[k] !in Visited(order, k)
  {
  }

  lemma TallyStep(sizes: map<nat, nat>, flushEvery: nat, order: seq<nat>, k: nat)
    requires k < |order|
    ensures TallyAfter(sizes, flushEvery, order[..k + 1])
         == TallyNext(sizes, flushEvery, TallyAfter(sizes, flushEvery, order[..k]), order[k])
  {
    assert order[..k + 1][..k] == order[..k];
  }

  function Present(d: Disk, packs: set<nat>): set<nat> {
    set p | p in packs && p in d.packs
  }

  lemma SurvivorsCardinality(c: Codec, d: Disk, m: Index, keep: set<string>, packs: set<nat>, p: nat)
    requires p !in packs
    ensures |Survivors(c, d, m, keep, packs + {p})| == |Survivors(c, d, m, keep, packs)| + |Survivors(c, d, m, keep, {p})|
  {
    var xs, ys := Survivors(c, d, m, keep, packs), Survivors(c, d, m, keep, {p});
    assert Survivors(c, d, m, keep, packs + {p}) == xs + ys;
    assert xs !! ys;
  }

  /** A merge that started with nothing buffered: what it has taken, counted, written and buffered. */
  ghost predicate MergeTally(
    c: Codec, pass: Pass, order: seq<nat>, k: nat, flushEvery: nat, taken: set<nat>, kept: nat, dropped: nat, t: Tally)
    requires k <= |order|
  {
    && taken == Present(pass.disk, Visited(order, k))
    && kept == |Survivors(c, pass.disk, pass.index, pass.keep, taken)|
    && kept + dropped == |Of(pass.index, taken)|
    && t == TallyAfter(SizesOf(c, pass.disk, pass.index, pass.keep, order), flushEvery, order[..k])
    && t.written * flushEvery + t.buffered <= kept
  }

  lemma TallyStarts(c: Codec, pass: Pass, order: seq<nat>, flushEvery: nat)
    ensures MergeTally(c, pass, order, 0, flushEvery, {}, 0, 0, Tally(0, 0))
  {
    assert Of(pass.index, {}) == {} && Survivors(c, pass.disk, pass.index, pass.keep, {}) == {};
  }

  lemma TallySkips(
    c: Codec, pass: Pass, order: seq<nat>, k: nat, flushEvery: nat, taken: set<nat>, kept: nat, dropped: nat, t: Tally)
    requires k < |order| && order[k] !in pass.disk.packs
    requires MergeTally(c, pass, order, k, flushEvery, taken, kept, dropped, t)
    ensures MergeTally(c, pass, order, k + 1, flushEvery, taken, kept, dropped, t)
  {
    VisitedNext(order, k);
    TallyStep(SizesOf(c, pass.disk, pass.index, pass.keep, order), flushEvery, order, k);
  }

  lemma TallyTakes(
    c: Codec, pass: Pass, order: seq<nat>, k: nat, flushEvery: nat, taken: set<nat>, kept: nat, dropped: nat, t: Tally,
    more: nat, less: nat)
    requires k < |order| && order[k] in pass.disk.packs && order[k] !in Visited(order, k)
    requires MergeTally(c, pass, order, k, flushEvery, taken, kept, dropped, t)
    requires more == |Survivors(c, pass.disk, pass.index, pass.keep, {order[k]})| && more + less == |Of(pass.index, {order[k]})|
    ensures var t' := TallyNext(map[order[k] := more], flushEvery, t, order[k]);
      MergeTally(c, pass, order, k + 1, flushEvery, taken + {order[k]}, kept + more, dropped + less, t')
  {
    var p := order[k];
    VisitedNext(order, k);
    assert p in order;
    TallyStep(SizesOf(c, pass.disk, pass.index, pass.keep, order), flushEvery, order, k);
    OfCardinality(pass.index, taken, p);
    SurvivorsCardinality(c, pass.disk, pass.index, pass.keep, taken, p);
    var t' := TallyNext(map[p := more], flushEvery, t, p);
    Shared(t.written, flushEvery, t.buffered + more, kept + more);
    assert Present(pass.disk, Visited(order, k) + {p}) == taken + {p};
  }

  lemma Shared(written: nat, flushEvery: nat, buffered: nat, kept: nat)
    requires written * flushEvery + buffered <= kept
    ensures buffered >= flushEvery ==> (written + 1) * flushEvery <= kept
    ensures written * flushEvery <= kept
  {
  }

  lemma QuotientBound(n: nat, e: nat, k: nat)
    requires e > 0 && n * e <= k
    ensures n <= k / e
  {
    var q := k / e;
    assert k == q * e + k % e && k % e < e;
    if q + 1 <= n {
      ScaledOrder(q + 1, n, e);
    }
  }

  lemma ScaledOrder(a: nat, b: nat, e: nat)
    requires a <= b
    ensures a * e <= b * e
  {
    assert b * e == a * e + (b - a) * e;
  }

  /** Where a merge stands: packs waiting for removal, packs removed, and the counts. */
  datatype Merge = Merge(waiting: set<nat>, removed: set<nat>, kept: nat, dropped: nat)

  /** No pack of the merge gets an id handed out before its turn. */
  ghost predicate Unshared(c: Codec, pass: Pass, order: seq<nat>, flushEvery: nat) {
    if pass.quiet then !Reuses(SizesOf(c, pass.disk, pass.index, pass.keep, order), flushEvery, order, pass.next)
    else forall p :: p in order ==> p < pass.next
  }

  ghost predicate Streaming(
    c: Codec, pass: Pass, d: Disk, m: Index, items: seq<Item>, next: nat, retired: set<nat>, order: seq<nat>, k: nat,
    flushEvery: nat, s: Merge)
  {
    && k <= |order| && s.removed + s.waiting <= Visited(order, k) && pass.next <= next
    && Merging(c, pass, d, m, items, next, retired, s.removed, s.waiting)
    && (pass.quiet ==>
          MergeTally(c, pass, order, k, flushEvery, s.removed + s.waiting, s.kept, s.dropped,
            Course(pass.next, next, items)))
  }

  /** What the merge has written and buffered since the pass began. */
  function Course(from: nat, next: nat, items: seq<Item>): Tally {
    Tally(if next >= from then next - from else 0, |items|)
  }

  /** One pack taken: its blobs counted, and the buffer flushed if that filled it. */
  ghost predicate Took(c: Codec, pass: Pass, p: nat, flushEvery: nat, s: Merge, t: Tally, s': Merge, t': Tally) {
    && s'.removed + s'.waiting == (s.removed + s.waiting) + {p} && s'.kept >= s.kept && s'.dropped >= s.dropped
    && (pass.quiet ==>
          && p in pass.disk.packs
          && s'.kept - s.kept == |Survivors(c, pass.disk, pass.index, pass.keep, {p})|
          && s'.kept - s.kept + s'.dropped - s.dropped == |Of(pass.index, {p})|
          && t' == TallyNext(map[p := s'.kept - s.kept], flushEvery, t, p))
  }

  lemma StreamStarts(
    c: Codec, pass: Pass, d: Disk, m: Index, items: seq<Item>, retired: set<nat>, order: seq<nat>, flushEvery: nat)
    requires Passing(c, pass, d, m, pass.next, retired, {}) && (pass.quiet ==> items == [])
    ensures Streaming(c, pass, d, m, items, pass.next, retired, order, 0, flushEvery, Merge({}, {}, 0, 0))
  {
    MergeStarts(c, pass, d, m, items, pass.next, retired, {});
    TallyStarts(c, pass, order, flushEvery);
    var none: set<nat> := {};
    assert none + none == none;
  }

  /** The next pack either has no file, or is one that was there before the pass. */
  lemma NextIsOld(
    c: Codec, pass: Pass, d: Disk, m: Index, items: seq<Item>, next: nat, retired: set<nat>, order: seq<nat>, k: nat,
    flushEvery: nat, s: Merge)
    requires Streaming(c, pass, d, m, items, next, retired, order, k, flushEvery, s) && k < |order|
    requires Unshared(c, pass, order, flushEvery) && PacksBelow(d, next)
    requires EachOnce(order, Visited(order, |order|)) && Visited(order, |order|) !! retired
    ensures order[k] !in retired && order[k] !in s.removed && order[k] !in s.waiting && order[k] !in Visited(order, k)
    ensures order[k] in d.packs ==> order[k] < pass.next
    ensures pass.quiet && order[k] !in d.packs ==> order[k] !in pass.disk.packs
  {
    VisitedNot(order, Visited(order, |order|), k);
    if pass.quiet {
      assert !ReusedAt(SizesOf(c, pass.disk, pass.index, pass.keep, order), flushEvery, order, pass.next, k);
    } else {
      assert order[k] in order;
    }
    if order[k] < pass.next {
      assert OldPackAt(pass.disk, d, retired + s.removed, order[k]);
    }
  }

  lemma StreamSkips(
    c: Codec, pass: Pass, d: Disk, m: Index, items: seq<Item>, next: nat, retired: set<nat>, order: seq<nat>, k: nat,
    flushEvery: nat, s: Merge)
    requires Streaming(c, pass, d, m, items, next, retired, order, k, flushEvery, s) && k < |order|
    requires pass.quiet ==> order[k] !in pass.disk.packs
    ensures Streaming(c, pass, d, m, items, next, retired, order, k + 1, flushEvery, s)
  {
    VisitedNext(order, k);
    if pass.quiet {
      TallySkips(c, pass, order, k, flushEvery, s.removed + s.waiting, s.kept, s.dropped, Course(pass.next, next, items));
    }
  }

  /** One pack taken, with or without the flush that follows it. */
  lemma StreamTakes(
    c: Codec, pass: Pass, d: Disk, m: Index, items: seq<Item>, next: nat, retired: set<nat>, order: seq<nat>, k: nat,
    flushEvery: nat, s: Merge, d': Disk, m': Index, items': seq<Item>, next': nat, s': Merge)
    requires Streaming(c, pass, d, m, items, next, retired, order, k, flushEvery, s) && k < |order|
    requires order[k] !in Visited(order, k) && next <= next'
    requires Merging(c, pass, d', m', items', next', retired, s'.removed, s'.waiting)
    requires Took(c, pass, order[k], flushEvery, s, Course(pass.next, next, items), s', Course(pass.next, next', items'))
    ensures Streaming(c, pass, d', m', items', next', retired, order, k + 1, flushEvery, s')
  {
    VisitedNext(order, k);
    if pass.quiet {
      TallyTakes(c, pass, order, k, flushEvery, s.removed + s.waiting, s.kept, s.dropped, Course(pass.next, next, items),
        s'.kept - s.kept, s'.dropped - s.dropped);
    }
  }

  lemma StreamBound(
    c: Codec, pass: Pass, d: Disk, m: Index, items: seq<Item>, next: nat, retired: set<nat>, order: seq<nat>, k: nat,
    flushEvery: nat, s: Merge)
    requires Streaming(c, pass, d, m, items, next, retired, order, k, flushEvery, s)
    ensures pass.quiet && flushEvery > 0 ==> next - pass.next <= s.kept / flushEvery
  {
    if pass.quiet && flushEvery > 0 {
      var written: nat := next - pass.next;
      QuotientBound(written, flushEvery, s.kept);
    }
  }

  // -------------------------------------------------------------- merged packs

  function PacksOf(m: Index, hs: set<string>): set<nat> {
    set h | h in hs && h in m :: m[h].packId
  }

  /** Outside these packs every entry is as it was. */
  ghost predicate Others(m: Index, m': Index, packs: set<nat>) {
    forall h :: OtherAt(m, m', packs, h)
  }

  predicate OtherAt(m: Index, m': Index, packs: set<nat>, h: string) {
    h in m && m[h].packId !in packs ==> h in m' && m'[h] == m[h]
  }

  lemma LedOutOthers(m: Index, m': Index, moved: set<string>, packs: set<nat>, n: nat)
    requires LedOut(m, m', moved, packs, n) && moved <= Of(m, packs)
    ensures Others(m, m', packs)
  {
    forall h ensures OtherAt(m, m', packs, h) {
      assert LedOutAt(m, m', moved, packs, n, h);
    }
  }

  lemma OthersThen(m: Index, m1: Index, m2: Index, packs: set<nat>, p: nat)
    requires Others(m, m1, packs) && Others(m1, m2, {p})
    ensures Others(m, m2, packs + {p})
  {
    forall h ensures OtherAt(m, m2, packs + {p}, h) {
      assert OtherAt(m, m1, packs, h) && OtherAt(m1, m2, {p}, h);
    }
  }

  /** The survivors of merged packs sit in packs the merge wrote. */
  lemma MergedInto(
    c: Codec, pass: Pass, d: Disk, m: Index, next: nat, retired: set<nat>, moved: set<nat>, m': Index, later: set<nat>)
    requires Passing(c, pass, d, m, next, retired, moved) && pass.quiet && PacksBelow(d, next) && Within(m, LoadIndex(d.index))
    requires pass.promised == Promised(c, pass.disk, pass.index, pass.keep)
    requires Others(m, m', later) && (forall p :: p in later ==> p < pass.next) && moved !! retired
    ensures |PacksOf(m', Survivors(c, pass.disk, pass.index, pass.keep, moved))| <= next - pass.next
  {
    var live := Survivors(c, pass.disk, pass.index, pass.keep, moved);
    forall p | p in PacksOf(m', live) ensures pass.next <= p < next {
      var h :| h in live && h in m' && m'[h].packId == p;
      assert FatedAt(c, pass.disk, pass.index, m, pass.keep, retired, moved, pass.next, h);
      assert h in pass.promised && EntryIn(m, LoadIndex(d.index), h) && OtherAt(m, m', later, h);
    }
    IdsBetween(PacksOf(m', live), pass.next, next);
  }

  lemma {:induction false} IdsBetween(ids: set<nat>, lo: nat, hi: nat)
    requires lo <= hi && forall p :: p in ids ==> lo <= p < hi
    ensures |ids| <= hi - lo
    decreases hi
  {
    if lo < hi {
      IdsBetween(ids - {hi - 1}, lo, hi - 1);
      if hi - 1 in ids {
        assert ids == (ids - {hi - 1}) + {hi - 1};
      } else {
        assert ids - {hi - 1} == ids;
      }
    } else {
      assert ids == {};
    }
  }
}
