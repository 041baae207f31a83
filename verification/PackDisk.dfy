/** Blob packs on disk: the record layout, the append-only index, and what a reload reads. */
module PackDisk {
  import opened Base
  import Hlc

  /** SHA-256 and base64; `dec` is `None` where decoding throws. */
  datatype Codec = Codec(hash: Bytes -> string, enc: Bytes -> string, dec: string -> Option<Bytes>)

  /** Base64 decoding inverts encoding, and no two contents share a hash. */
  ghost predicate Lawful(c: Codec) {
    && (forall x :: DecodesBack(c, x))
    && (forall x, y :: NoCollision(c, x, y))
  }

  predicate DecodesBack(c: Codec, x: Bytes) {
    c.dec(c.enc(x)) == Some(x)
  }

  predicate NoCollision(c: Codec, x: Bytes, y: Bytes) {
    c.hash(x) == c.hash(y) ==> x == y
  }

  datatype Loc = Loc(packId: nat, offset: nat, len: nat)

  datatype IndexLine = IndexLine(hash: string, loc: Loc)

  /** Pack files by id, and the lines of the index file; an absent index has no lines. */
  datatype Disk = Disk(packs: map<nat, string>, index: seq<IndexLine>)

  /** A buffered blob. */
  datatype Item = Item(hash: string, b64: string)

  type Index = map<string, Loc>

  // ------------------------------------------------------------------- reading

  /** Index lines over an index: a later line for the same hash wins. */
  function Reindex(m: Index, lines: seq<IndexLine>): Index
    decreases |lines|
  {
    if lines == [] then m
    else
      var last := lines[|lines| - 1];
      Reindex(m, lines[..|lines| - 1])[last.hash := last.loc]
  }

  /** What `loadPackIndex` rebuilds. */
  function LoadIndex(lines: seq<IndexLine>): Index {
    Reindex(map[], lines)
  }

  /** `text.substr(offset, len)`. */
  function Substr(text: string, offset: nat, len: nat): string {
    var lo := if offset <= |text| then offset else |text|;
    var hi := if lo + len <= |text| then lo + len else |text|;
    text[lo..hi]
  }

  /** The content an index entry leads to: the whole body is there and hashes back. */
  function Verified(c: Codec, h: string, loc: Loc, pack: string): Option<Bytes> {
    var body := Substr(pack, loc.offset, loc.len);
    if |body| != loc.len then None
    else
      var content := c.dec(body);
      if content.Some? && c.hash(content.value) == h then content else None
  }

  function ReadAt(c: Codec, d: Disk, h: string, loc: Loc): Option<Bytes> {
    if loc.packId in d.packs then Verified(c, h, loc, d.packs[loc.packId]) else None
  }

  function ReadVia(c: Codec, d: Disk, m: Index, h: string): Option<Bytes> {
    if h in m then ReadAt(c, d, h, m[h]) else None
  }

  /** What a store reloaded from this disk answers for `h`. */
  function Reads(c: Codec, d: Disk, h: string): Option<Bytes> {
    ReadVia(c, d, LoadIndex(d.index), h)
  }

  ghost predicate KeepsAll(c: Codec, d0: Disk, d: Disk) {
    forall h :: Reads(c, d0, h).Some? ==> Reads(c, d, h).Some?
  }

  /** A hash that reads at all reads the one content with that hash. */
  lemma ReadsAgree(c: Codec, d0: Disk, d: Disk, h: string)
    requires Lawful(c) && Reads(c, d0, h).Some? && Reads(c, d, h).Some?
    ensures Reads(c, d, h) == Reads(c, d0, h)
  {
    assert NoCollision(c, Reads(c, d, h).value, Reads(c, d0, h).value);
  }

  lemma {:induction false} ReindexAppend(m: Index, xs: seq<IndexLine>, ys: seq<IndexLine>)
    ensures Reindex(m, xs + ys) == Reindex(Reindex(m, xs), ys)
    decreases |ys|
  {
    if ys == [] {
      assert xs + ys == xs;
    } else {
      var init := ys[..|ys| - 1];
      ReindexAppend(m, xs, init);
      assert (xs + ys)[..|xs + ys| - 1] == xs + init;
    }
  }

  lemma ReindexSnoc(m: Index, lines: seq<IndexLine>, j: nat)
    requires 0 < j <= |lines|
    ensures Reindex(m, lines[..j]) == Reindex(m, lines[..j - 1])[lines[j - 1].hash := lines[j - 1].loc]
  {
    assert lines[..j][..j - 1] == lines[..j - 1];
  }

  // --------------------------------------------------------------- pack layout

  /** The line before a body: the hash and the body's length. */
  function Header(it: Item): string {
    it.hash + " " + Hlc.Decimal(|it.b64|) + "\n"
  }

  function Record(it: Item): string {
    Header(it) + it.b64 + "\n"
  }

  function PackBody(items: seq<Item>): string
    decreases |items|
  {
    if items == [] then "" else PackBody(items[..|items| - 1]) + Record(items[|items| - 1])
  }

  lemma PackBodySnoc(items: seq<Item>, k: nat)
    requires k < |items|
    ensures PackBody(items[..k + 1]) == PackBody(items[..k]) + Header(items[k]) + items[k].b64 + "\n"
  {
    assert items[..k + 1][..k] == items[..k];
    var body := PackBody(items[..k]);
    assert body + Record(items[k]) == body + Header(items[k]) + items[k].b64 + "\n";
  }

  function LineOf(items: seq<Item>, k: nat, packId: nat): IndexLine
    requires k < |items|
  {
    IndexLine(items[k].hash, Loc(packId, |PackBody(items[..k])| + |Header(items[k])|, |items[k].b64|))
  }

  function IndexDelta(items: seq<Item>, packId: nat): seq<IndexLine> {
    seq(|items|, k requires 0 <= k < |items| => LineOf(items, k, packId))
  }

  /** The body of the `k`-th record starts where its index line says, whatever follows it. */
  lemma {:induction false} RecordsFollow(items: seq<Item>, k: nat) returns (tail: string)
    requires k < |items|
    ensures PackBody(items) == PackBody(items[..k]) + Header(items[k]) + items[k].b64 + tail
    decreases |items|
  {
    var n := |items| - 1;
    var it := items[n];
    if k == n {
      tail := "\n";
    } else {
      var rest := RecordsFollow(items[..n], k);
      assert items[..n][..k] == items[..k];
      FirstIs(PackBody(items), PackBody(items[..n]), Record(it), PackBody(items[..k]) + Header(items[k]) + items[k].b64, rest);
      tail := rest + Record(it);
    }
  }

  /** Each recorded offset slices out exactly the body it was recorded for. */
  lemma SliceExact(items: seq<Item>, packId: nat, k: nat)
    requires k < |items|
    ensures var loc := IndexDelta(items, packId)[k].loc;
      Substr(PackBody(items), loc.offset, loc.len) == items[k].b64
  {
    var tail := RecordsFollow(items, k);
    SubstrMiddle(PackBody(items[..k]) + Header(items[k]), items[k].b64, tail);
  }

  lemma SubstrMiddle(before: string, body: string, tail: string)
    ensures Substr(before + body + tail, |before|, |body|) == body
  {
  }

  // --------------------------------------------------------------------- flush

  /** Buffered bodies decode to bytes with the recorded hash. */
  ghost predicate SoundItems(c: Codec, items: seq<Item>) {
    forall it :: it in items ==> SoundItem(c, it)
  }

  predicate SoundItem(c: Codec, it: Item) {
    c.dec(it.b64).Some? && c.hash(c.dec(it.b64).value) == it.hash
  }

  lemma EncodedIsSound(c: Codec, content: Bytes)
    requires Lawful(c)
    ensures SoundItem(c, Item(c.hash(content), c.enc(content)))
  {
    assert DecodesBack(c, content);
  }

  function HashesOf(items: seq<Item>): set<string> {
    set it | it in items :: it.hash
  }

  lemma HashesSnoc(items: seq<Item>, j: nat)
    requires 0 < j <= |items|
    ensures HashesOf(items[..j]) == HashesOf(items[..j - 1]) + {items[j - 1].hash}
  {
    assert items[..j] == items[..j - 1] + [items[j - 1]];
  }

  lemma LastLine(m: Index, items: seq<Item>, packId: nat, k: nat)
    requires k < |items|
    ensures var lines := IndexDelta(items, packId);
      && Reindex(m, lines[..k + 1]) == Reindex(m, lines[..k])[items[k].hash := lines[k].loc]
      && HashesOf(items[..k + 1]) == HashesOf(items[..k]) + {items[k].hash}
  {
    ReindexSnoc(m, IndexDelta(items, packId), k + 1);
    HashesSnoc(items, k + 1);
  }

  lemma {:induction false} ReindexDelta(m: Index, items: seq<Item>, packId: nat, j: nat, h: string) returns (k: nat)
    requires j <= |items|
    ensures var m' := Reindex(m, IndexDelta(items, packId)[..j]);
      if h in HashesOf(items[..j]) then
        && k < j && items[k].hash == h && h in m' && m'[h] == IndexDelta(items, packId)[k].loc
      else (h in m' <==> h in m) && (h in m ==> m'[h] == m[h])
    decreases j
  {
    k := 0;
    if j > 0 {
      LastLine(m, items, packId, j - 1);
      if items[j - 1].hash == h {
        k := j - 1;
      } else {
        k := ReindexDelta(m, items, packId, j - 1, h);
      }
    }
  }

  /** The disk after a flush whose index append got as far as `j` lines. */
  function Flushed(d: Disk, packId: nat, items: seq<Item>, j: nat): Disk
    requires j <= |items|
  {
    Disk(d.packs[packId := PackBody(items)], d.index + IndexDelta(items, packId)[..j])
  }

  /** A flush into a fresh pack, torn or not, loses nothing and makes each indexed blob readable. */
  lemma FlushReads(c: Codec, d: Disk, packId: nat, items: seq<Item>, j: nat, h: string)
    requires packId !in d.packs && SoundItems(c, items) && j <= |items|
    ensures var loaded := LoadIndex(Flushed(d, packId, items, j).index);
      if h in HashesOf(items[..j]) then
        && Reads(c, Flushed(d, packId, items, j), h).Some? && loaded[h].packId == packId
      else
        && (Reads(c, d, h).Some? ==> Reads(c, Flushed(d, packId, items, j), h) == Reads(c, d, h))
        && (h in loaded <==> h in LoadIndex(d.index)) && (h in loaded ==> loaded[h] == LoadIndex(d.index)[h])
  {
    ReindexAppend(map[], d.index, IndexDelta(items, packId)[..j]);
    var k := ReindexDelta(LoadIndex(d.index), items, packId, j, h);
    if h in HashesOf(items[..j]) {
      SliceExact(items, packId, k);
      assert items[k] in items;
    }
  }

  /** A pack body that was only partly appended is not indexed yet: every read is as before. */
  lemma TornPackReads(c: Codec, d: Disk, packId: nat, text: string, h: string)
    requires packId !in d.packs
    ensures Reads(c, d, h).Some? ==> Reads(c, d.(packs := d.packs[packId := text]), h) == Reads(c, d, h)
  {
  }

  // ------------------------------------------------------------------- rewrite

  /** Lines that spell an index, each hash once. */
  ghost predicate Lists(lines: seq<IndexLine>, m: Index) {
    && (forall h :: h in m <==> exists k :: 0 <= k < |lines| && lines[k].hash == h)
    && (forall k :: 0 <= k < |lines| ==> lines[k].hash in m && lines[k].loc == m[lines[k].hash])
  }

  lemma {:induction false} ListsLoads(lines: seq<IndexLine>, m: Index)
    requires Lists(lines, m)
    ensures LoadIndex(lines) == m
  {
    forall h ensures (h in LoadIndex(lines) <==> h in m) && (h in m ==> LoadIndex(lines)[h] == m[h]) {
      LoadedFrom(lines, h);
    }
  }

  lemma {:induction false} LoadedFrom(lines: seq<IndexLine>, h: string)
    ensures h in LoadIndex(lines) <==> exists k :: 0 <= k < |lines| && lines[k].hash == h
    ensures h in LoadIndex(lines) ==> exists k :: 0 <= k < |lines| && lines[k] == IndexLine(h, LoadIndex(lines)[h])
    decreases |lines|
  {
    if lines != [] {
      var init := lines[..|lines| - 1];
      LoadedFrom(init, h);
      if k :| 0 <= k < |lines| && lines[k].hash == h {
        if k < |lines| - 1 {
          assert init[k].hash == h;
        }
      }
      if lines[|lines| - 1].hash == h {
        assert lines[|lines| - 1] == IndexLine(h, LoadIndex(lines)[h]);
      } else if h in LoadIndex(lines) {
        var k :| 0 <= k < |init| && init[k] == IndexLine(h, LoadIndex(init)[h]);
        assert lines[k] == init[k];
      }
    }
  }
}
