/** The pack-only content store: buffer, index, cache, and the disk under it. */
module PackStore {
  import opened Base
  import opened PackDisk
  import opened PackState
  import opened BlobCache
  import opened PackReuse

  class ContentStore {
    const codec: Codec
    const budget: nat
    var disk: Disk
    ghost var seen: iset<Disk>  // every state the disk has been in, torn appends included
    var index: Index
    var memOrder: seq<string>   // the cache's keys, least recently used first
    var memBlobs: map<string, Bytes>
    var memBytes: nat
    var packBuffer: seq<Item>
    var pending: set<string>
    var nextPackId: nat

    /** The cache fits its budget, or holds nothing but unflushed blobs. */
    ghost predicate FitsBudget()
      reads this`memOrder, this`memBytes, this`pending
    {
      memBytes <= budget || forall h :: h in memOrder ==> h in pending
    }

    ghost predicate CacheOk()
      reads this`memOrder, this`memBlobs, this`memBytes, this`pending
    {
      Shape(memOrder, memBlobs, memBytes) && FitsBudget()
    }

    /** Holds at every step of every operation. */
    ghost predicate Inv()
      reads this
    {
      && CacheOk() && disk in seen
      && InStep(codec, disk, index, memBlobs, packBuffer, pending, nextPackId)
    }

    /** No entry names a pack id still to be given out, and every slice decodes: then no read ever throws. */
    ghost predicate Trusted()
      reads this`index, this`disk, this`nextPackId
    {
      TrustedEntries(codec, disk, index, nextPackId)
    }

    /** Holds between operations: the memory index is exactly what a reload would rebuild. */
    ghost predicate Valid()
      reads this
    {
      Inv() && index == LoadIndex(disk.index) && pending == HashesOf(packBuffer)
    }

    // ---------------------------------------------------------------- the disk

    method AppendPack(packId: nat, text: string)
      modifies this`disk, this`seen
      ensures disk == PackAppended(old(disk), packId, text)
      ensures forall x :: x in seen <==> x in old(seen) || TornPack(x, old(disk), packId, text)
    {
      seen := seen + iset k | 0 <= k <= |text| :: PackAppended(disk, packId, text[..k]);
      disk := PackAppended(disk, packId, text);
    }

    method AppendIndex(lines: seq<IndexLine>)
      modifies this`disk, this`seen
      ensures disk == IndexAppended(old(disk), lines)
      ensures forall x :: x in seen <==> x in old(seen) || TornIndex(x, old(disk), lines)
    {
      seen := seen + iset k | 0 <= k <= |lines| :: IndexAppended(disk, lines[..k]);
      disk := IndexAppended(disk, lines);
    }

    method RemovePack(packId: nat)
      modifies this`disk, this`seen
      ensures disk == old(disk).(packs := old(disk).packs - {packId})
      ensures seen == old(seen) + iset{disk}
    {
      disk := disk.(packs := disk.packs - {packId});
      seen := seen + iset{disk};
    }

    /** An atomic rewrite of the index file. */
    method WriteIndex(lines: seq<IndexLine>)
      modifies this`disk, this`seen
      ensures disk == old(disk).(index := lines)
      ensures seen == old(seen) + iset{disk}
    {
      disk := disk.(index := lines);
      seen := seen + iset{disk};
    }

    // --------------------------------------------------------------- the cache

    /** Drop the least recently used blobs that are not pending until the budget holds. */
    method EvictToBudget() returns (ghost n: nat)
      requires Shape(memOrder, memBlobs, memBytes)
      modifies this`memOrder, this`memBlobs, this`memBytes
      ensures CacheOk() && Evicted(old(memOrder), old(memBlobs), memOrder, memBlobs, pending, n)
      ensures old(memBytes) <= budget ==> memBlobs == old(memBlobs) && memOrder == old(memOrder)
      ensures NoFurther(old(Cache(memOrder, memBlobs, memBytes)), Cache(memOrder, memBlobs, memBytes), pending, n, budget)
    {
      if memBytes <= budget {
        n := 0;
        return;
      }
      var c;
      c, n := Evict(Cache(memOrder, memBlobs, memBytes), budget, pending);
      memOrder, memBlobs, memBytes := c.order, c.blobs, c.bytes;
    }

    /** Insert or refresh a blob at the recently used end. */
    method CacheSet(hash: string, content: Bytes)
      requires CacheOk()
      modifies this`memOrder, this`memBlobs, this`memBytes
      ensures CacheOk() && SubCache(memBlobs, old(memBlobs)[hash := content])
      ensures KeepsPending(old(memBlobs)[hash := content], memBlobs, pending)
    {
      ghost var wanted := memBlobs[hash := content];
      if hash in memBlobs {
        DeleteKeepsShape(memOrder, memBlobs, memBytes, hash);
        memBytes := memBytes - |memBlobs[hash]|;
        memOrder := Without(memOrder, hash);
        memBlobs := memBlobs - {hash};
      }
      InsertKeepsShape(memOrder, memBlobs, memBytes, hash, content);
      memOrder := memOrder + [hash];
      memBlobs := memBlobs[hash := content];
      memBytes := memBytes + |content|;
      assert memBlobs == wanted;
      ghost var n := EvictToBudget();
    }

    method CacheDelete(hash: string)
      requires CacheOk()
      modifies this`memOrder, this`memBlobs, this`memBytes
      ensures CacheOk() && memBlobs == old(memBlobs) - {hash}
    {
      if hash in memBlobs {
        DeleteKeepsShape(memOrder, memBlobs, memBytes, hash);
        WithoutMembers(memOrder, hash);
        memBytes := memBytes - |memBlobs[hash]|;
        memOrder := Without(memOrder, hash);
        memBlobs := memBlobs - {hash};
      }
    }

    /** A cache hit moves the blob to the recently used end. */
    method Touch(hash: string)
      requires CacheOk() && hash in memBlobs
      modifies this`memOrder
      ensures CacheOk() && memOrder == Without(old(memOrder), hash) + [hash]
    {
      DeleteKeepsShape(memOrder, memBlobs, memBytes, hash);
      WithoutMembers(memOrder, hash);
      InsertKeepsShape(Without(memOrder, hash), memBlobs - {hash}, memBytes - |memBlobs[hash]|, hash, memBlobs[hash]);
      assert (memBlobs - {hash})[hash := memBlobs[hash]] == memBlobs;
      assert InBoth(memOrder, memBlobs, hash);
      memOrder := Without(memOrder, hash) + [hash];
    }

    // ------------------------------------------------------- load, buffer, flush

    /** A store opened over whatever the disk holds: torn packs, stale lines and all. */
    constructor (codec: Codec, budget: nat, d: Disk)
      requires Lawful(codec)
      ensures Valid() && this.codec == codec && this.budget == budget
      ensures disk == d && seen == iset{d} && memBlobs == map[] && packBuffer == []
      ensures nextPackId == 0 || nextPackId - 1 in d.packs
    {
      var loaded: Index := map[];
      assert d.index[..0] == [];
      for k := 0 to |d.index|
        invariant loaded == LoadIndex(d.index[..k])
      {
        ReindexSnoc(map[], d.index, k + 1);
        loaded := loaded[d.index[k].hash := d.index[k].loc];
      }
      assert d.index[..|d.index|] == d.index;
      var next: nat := 0;
      var todo := d.packs.Keys;
      while todo != {}
        invariant todo <= d.packs.Keys
        invariant forall p :: p in d.packs && p !in todo ==> p < next
        invariant next == 0 || next - 1 in d.packs
        decreases todo
      {
        var p :| p in todo;
        todo := todo - {p};
        next := if p >= next then p + 1 else next;
      }
      this.codec, this.budget, disk, seen := codec, budget, d, iset{d};
      index, nextPackId := loaded, next;
      memOrder, memBlobs, memBytes, packBuffer, pending := [], map[], 0, [], {};
    }

    /** Buffer a blob for the next pack; what is cached or already buffered is not buffered again. */
    method PutBuffered(hash: string, content: Bytes)
      requires Inv() && hash == codec.hash(content)
      modifies this`memOrder, this`memBlobs, this`memBytes, this`packBuffer, this`pending
      ensures Inv() && (old(Valid()) ==> Valid())
      ensures old(pending) <= pending
      ensures hash in pending || (hash in memBlobs && Reads(codec, disk, hash) == Some(content))
      ensures packBuffer ==
        if hash in old(memBlobs) || hash in old(pending) then old(packBuffer)
        else old(packBuffer) + [Item(hash, codec.enc(content))]
    {
      if hash in memBlobs || hash in pending {
        CachedReads(codec, disk, index, memBlobs, packBuffer, pending, nextPackId, hash);
        assert hash in memBlobs ==> NoCollision(codec, memBlobs[hash], content);
      } else {
        BufferBlob(hash, content);
      }
    }

    method BufferBlob(hash: string, content: Bytes)
      requires Inv() && hash == codec.hash(content)
      modifies this`memOrder, this`memBlobs, this`memBytes, this`packBuffer, this`pending
      ensures Inv()
      ensures packBuffer == old(packBuffer) + [Item(hash, codec.enc(content))] && pending == old(pending) + {hash}
      ensures HashesOf(packBuffer) == HashesOf(old(packBuffer)) + {hash}
    {
      var b64 := codec.enc(content);
      PutKeepsStep(codec, disk, index, memBlobs, packBuffer, pending, nextPackId, hash, content);
      ghost var blobs := memBlobs[hash := content];
      pending := pending + {hash};
      CacheSet(hash, content);
      ShrinkKeepsStep(codec, disk, index, blobs, packBuffer + [Item(hash, b64)], pending, nextPackId, memBlobs);
      packBuffer := packBuffer + [Item(hash, b64)];
    }

    /** Append the buffer to a fresh pack, then its locations to the index. */
    method FlushPack()
      requires Inv()
      modifies this
      ensures Inv() && packBuffer == [] && pending == {}
      ensures old(Trusted()) ==> Trusted()
      ensures old(index == LoadIndex(disk.index)) ==> index == LoadIndex(disk.index)
      ensures if old(packBuffer) == [] then
          disk == old(disk) && index == old(index) && nextPackId == old(nextPackId) && seen == old(seen)
        else
          && disk == Flushed(old(disk), old(nextPackId), old(packBuffer), |old(packBuffer)|)
          && index == Reindex(old(index), IndexDelta(old(packBuffer), old(nextPackId)))
          && nextPackId == old(nextPackId) + 1
      ensures KeepsAll(codec, old(disk), disk) && OnlyKeeping(codec, old(disk), old(seen), seen)
    {
      if packBuffer == [] {
        return;
      }
      WriteBuffer();
      ReleaseBuffer();
    }

    /** The buffer becomes durable under a fresh pack id. */
    method WriteBuffer()
      requires Inv()
      modifies this`disk, this`seen, this`index, this`nextPackId
      ensures InStep(codec, disk, index, memBlobs, [], {}, nextPackId) && disk in seen
      ensures old(Trusted()) ==> Trusted()
      ensures old(index == LoadIndex(disk.index)) ==> index == LoadIndex(disk.index)
      ensures disk == Flushed(old(disk), old(nextPackId), packBuffer, |packBuffer|)
      ensures index == Reindex(old(index), IndexDelta(packBuffer, old(nextPackId)))
      ensures nextPackId == old(nextPackId) + 1
      ensures KeepsAll(codec, old(disk), disk) && OnlyKeeping(codec, old(disk), old(seen), seen)
    {
      var packId := nextPackId;
      nextPackId := nextPackId + 1;
      FlushKeepsStep(codec, disk, index, memBlobs, packBuffer, pending, packId);
      WriteFresh(packId);
    }

    /** Assemble the pack and its index lines, and append both. */
    method WriteFresh(packId: nat)
      requires packId !in disk.packs && SoundItems(codec, packBuffer)
      modifies this`disk, this`seen, this`index
      ensures disk == Flushed(old(disk), packId, packBuffer, |packBuffer|) && disk in seen
      ensures index == Reindex(old(index), IndexDelta(packBuffer, packId))
      ensures KeepsAll(codec, old(disk), disk) && OnlyKeeping(codec, old(disk), old(seen), seen)
    {
      var packBody, idxDelta := AssemblePack(packId);
      WritePack(packId, packBody, idxDelta);
    }

    /** Flushed blobs lose their exemption from eviction. */
    method ReleaseBuffer()
      requires InStep(codec, disk, index, memBlobs, [], {}, nextPackId) && CacheOk()
      modifies this`packBuffer, this`pending, this`memOrder, this`memBlobs, this`memBytes
      ensures packBuffer == [] && pending == {} && CacheOk()
      ensures InStep(codec, disk, index, memBlobs, packBuffer, pending, nextPackId)
    {
      packBuffer := [];
      pending := {};
      ghost var blobs := memBlobs;
      ghost var n := EvictToBudget();
      ShrinkKeepsStep(codec, disk, index, blobs, [], {}, nextPackId, memBlobs);
    }

    /** The two appends of a flush; whatever a crash leaves of them still reads what was readable. */
    method WritePack(packId: nat, packBody: string, idxDelta: seq<IndexLine>)
      requires packId !in disk.packs && SoundItems(codec, packBuffer)
      requires packBody == PackBody(packBuffer) && idxDelta == IndexDelta(packBuffer, packId)
      modifies this`disk, this`seen
      ensures disk == Flushed(old(disk), packId, packBuffer, |packBuffer|) && disk in seen
      ensures KeepsAll(codec, old(disk), disk) && OnlyKeeping(codec, old(disk), old(seen), seen)
    {
      ghost var d := disk;
      AppendPack(packId, packBody);
      AppendIndex(idxDelta);
      FlushedInFull(d, packId, packBuffer);
      assert TornIndex(disk, PackAppended(d, packId, packBody), idxDelta) by {
        assert idxDelta[..|idxDelta|] == idxDelta;
      }
      FlushStatesKeep(codec, d, packId, packBuffer, disk);
      forall x ensures KeepingAt(codec, d, old(seen), seen, x) {
        if x in seen && x !in old(seen) {
          FlushStatesKeep(codec, d, packId, packBuffer, x);
        }
      }
    }

    /** The body of the buffered pack and its index lines; the memory index follows along. */
    method AssemblePack(packId: nat) returns (packBody: string, idxDelta: seq<IndexLine>)
      modifies this`index
      ensures packBody == PackBody(packBuffer) && idxDelta == IndexDelta(packBuffer, packId)
      ensures index == Reindex(old(index), idxDelta)
    {
      packBody, idxDelta := "", [];
      ghost var m, items := index, packBuffer;
      SliceEnds(IndexDelta(items, packId), |items|);
      SliceEnds(items, |items|);
      for k := 0 to |packBuffer|
        invariant Assembled(items, packId, m, k, packBody, idxDelta, index)
      {
        var it := packBuffer[k];
        var loc := Loc(packId, |packBody| + |Header(it)|, |it.b64|);
        AssembledNext(items, packId, m, k, packBody, idxDelta, index);
        packBody := packBody + Header(it) + it.b64 + "\n";
        index := index[it.hash := loc];
        idxDelta := idxDelta + [IndexLine(it.hash, loc)];
      }
    }

    /** Buffer and flush at once: afterwards a reload reads the blob back. */
    method Put(hash: string, content: Bytes)
      requires Inv() && hash == codec.hash(content)
      modifies this
      ensures Inv() && (old(Valid()) ==> Valid()) && (old(Trusted()) ==> Trusted())
      ensures Reads(codec, disk, hash) == Some(content)
      ensures KeepsAll(codec, old(disk), disk) && OnlyKeeping(codec, old(disk), old(seen), seen)
    {
      PutBuffered(hash, content);
      ghost var items, packId, d := packBuffer, nextPackId, disk;
      FlushPack();
      if items != [] && hash in HashesOf(items) {
        assert items[..|items|] == items;
        FlushReads(codec, d, packId, items, |items|, hash);
        SameHashSameBytes(codec, disk, hash, content);
      } else if items != [] {
        FlushReads(codec, d, packId, items, |items|, hash);
      }
    }

    // --------------------------------------------------------------------- reads

    /** `threw` is the error of decoding a slice that is not base64. */
    method Get(hash: string) returns (content: Option<Bytes>, threw: bool)
      requires Inv()
      modifies this`memOrder, this`memBlobs, this`memBytes
      ensures Inv()
      ensures threw ==> content == None && hash !in old(memBlobs) && hash in index && Undecodable(codec, disk, index, index[hash].packId)
      ensures !threw ==>
        content == if hash in old(memBlobs) then Some(old(memBlobs)[hash]) else ReadVia(codec, disk, index, hash)
      ensures content.Some? ==> codec.hash(content.value) == hash
      ensures !threw && hash !in pending ==> content == ReadVia(codec, disk, index, hash)
    {
      CachedReads(codec, disk, index, memBlobs, packBuffer, pending, nextPackId, hash);
      threw := false;
      if hash in memBlobs {
        Touch(hash);
        content := Some(memBlobs[hash]);
      } else {
        content, threw := GetFromPack(hash);
      }
    }

    /**
     * Read the whole pack once: answer for one blob, cache every blob of the pack that verifies. A
     * slice of the pack that is neither cached nor base64 throws, whichever blob was asked for.
     */
    method GetFromPack(hash: string) returns (found: Option<Bytes>, threw: bool)
      requires Inv() && hash !in memBlobs
      modifies this`memOrder, this`memBlobs, this`memBytes
      ensures Inv() && (if threw then found == None else found == ReadVia(codec, disk, index, hash))
      ensures threw ==> hash in index && Undecodable(codec, disk, index, index[hash].packId)
      ensures hash in index && !threw ==>
        forall h :: h in index && index[h].packId == index[hash].packId && h !in old(memBlobs) ==> DecodesAt(codec, disk, index, h)
    {
      found, threw := None, false;
      if hash !in index || index[hash].packId !in disk.packs {
        return;
      }
      var packId := index[hash].packId;
      var todo := index.Keys;
      ghost var blobs0 := memBlobs;
      while todo != {}
        invariant todo <= index.Keys && Inv()
        invariant if hash in todo then found == None && hash !in memBlobs
                  else found == ReadVia(codec, disk, index, hash)
        invariant forall h :: PassedOver(blobs0, todo, packId, h)
        decreases todo
      {
        var h :| h in todo;
        if index[h].packId == packId {
          var content;
          content, threw := ReadMember(h, blobs0, todo);
          if threw {
            return None, true;
          }
          if h == hash {
            found := content;
          }
        } else {
          PassedBy(blobs0, todo, packId, h);
        }
        todo := todo - {h};
      }
      forall h | h in index && index[h].packId == index[hash].packId && h !in blobs0
        ensures DecodesAt(codec, disk, index, h)
      {
        assert PassedOver(blobs0, {}, packId, h);
      }
    }

    lemma PassedBy(blobs0: map<string, Bytes>, todo: set<string>, packId: nat, h: string)
      requires h in index && index[h].packId != packId && forall x :: PassedOver(blobs0, todo, packId, x)
      ensures forall x :: PassedOver(blobs0, todo - {h}, packId, x)
    {
      forall x ensures PassedOver(blobs0, todo - {h}, packId, x) {
        assert PassedOver(blobs0, todo, packId, x);
      }
    }

    /** One member of the pack: cached already, or sliced out, verified and cached. */
    method ReadMember(h: string, ghost blobs0: map<string, Bytes>, ghost todo: set<string>)
      returns (content: Option<Bytes>, threw: bool)
      requires Inv() && h in todo && h in index && index[h].packId in disk.packs
      requires forall x :: PassedOver(blobs0, todo, index[h].packId, x)
      modifies this`memOrder, this`memBlobs, this`memBytes
      ensures Inv() && forall x :: x in memBlobs ==> x == h || x in old(memBlobs)
      ensures threw ==> !DecodesAt(codec, disk, index, h)
      ensures !threw && h !in old(memBlobs) ==> content == ReadVia(codec, disk, index, h)
      ensures !threw ==> forall x :: PassedOver(blobs0, todo - {h}, index[h].packId, x)
    {
      content, threw := None, false;
      assert PassedOver(blobs0, todo, index[h].packId, h);
      label Before:
      if h !in memBlobs {
        content, threw := VerifyMember(h);
        if threw {
          return;
        }
        if content.Some? {
          CacheVerified(h, content.value);
        }
      }
      forall x ensures PassedOver(blobs0, todo - {h}, index[h].packId, x) {
        assert old@Before(PassedOver(blobs0, todo, index[h].packId, x));
      }
    }

    /** The slice of an entry, if it is whole and hashes back; decoding it may throw. */
    method VerifyMember(h: string) returns (content: Option<Bytes>, threw: bool)
      requires h in index && index[h].packId in disk.packs
      ensures threw <==> !DecodesAt(codec, disk, index, h)
      ensures content == if threw then None else ReadVia(codec, disk, index, h)
    {
      content, threw := None, false;
      var body := Substr(disk.packs[index[h].packId], index[h].offset, index[h].len);
      if |body| == index[h].len {
        content := codec.dec(body);
        threw := content.None?;
        if content.Some? && codec.hash(content.value) != h {
          content := None;
        }
      }
    }

    /** A blob that was not cached, and of this pack is cached or passed over now, is base64. */
    ghost predicate PassedOver(blobs0: map<string, Bytes>, todo: set<string>, packId: nat, h: string)
      reads this`disk, this`index, this`memBlobs
    {
      h in index && index[h].packId == packId && h !in blobs0 && (h in memBlobs || h !in todo) ==>
        DecodesAt(codec, disk, index, h)
    }

    method CacheVerified(h: string, content: Bytes)
      requires Inv() && ReadVia(codec, disk, index, h) == Some(content)
      modifies this`memOrder, this`memBlobs, this`memBytes
      ensures Inv() && forall x :: x in memBlobs ==> x == h || x in old(memBlobs)
    {
      ghost var blobs := memBlobs[h := content];
      forall x ensures BackedAt(codec, disk, index, blobs, pending, x) {
        assert BackedAt(codec, disk, index, memBlobs, pending, x);
      }
      CacheSet(h, content);
      ShrinkKeepsStep(codec, disk, index, blobs, packBuffer, pending, nextPackId, memBlobs);
      forall x | x in memBlobs ensures x in blobs {
        assert SubAt(memBlobs, blobs, x);
      }
    }

    /** Bulk passes drop the cache at their checkpoints; buffered bytes stay in the buffer. */
    method ClearMemCache()
      requires Inv()
      modifies this`memOrder, this`memBlobs, this`memBytes
      ensures Inv() && memBlobs == map[]
    {
      forall x ensures SubAt(map[], memBlobs, x) {
      }
      ShrinkKeepsStep(codec, disk, index, memBlobs, packBuffer, pending, nextPackId, map[]);
      memOrder, memBlobs, memBytes := [], map[], 0;
    }

    // ------------------------------------------------------------------- removal

    /** Fold the memory index into a clean index file, atomically. */
    method RewriteIndex()
      requires Inv()
      modifies this`disk, this`seen
      ensures Inv() && disk.packs == old(disk).packs && LoadIndex(disk.index) == index
      ensures old(Trusted()) ==> Trusted()
      ensures seen == old(seen) + iset{disk}
    {
      var lines := ListIndex(index);
      ListsLoads(lines, index);
      ghost var d := disk;
      WriteIndex(lines);
      RewriteKeepsStep(codec, d, disk, index, memBlobs, packBuffer, pending, nextPackId);
    }

    /** Forget some blobs in memory: their index entries and their cached bytes. */
    method DropBlobs(hs: set<string>)
      requires CacheOk()
      modifies this`index, this`memOrder, this`memBlobs, this`memBytes
      ensures CacheOk() && index == old(index) - hs && memBlobs == old(memBlobs) - hs
    {
      var todo := hs;
      while todo != {}
        invariant todo <= hs && CacheOk()
        invariant index == old(index) - (hs - todo) && memBlobs == old(memBlobs) - (hs - todo)
        decreases todo
      {
        var h :| h in todo;
        todo := todo - {h};
        index := index - {h};
        CacheDelete(h);
      }
    }

    method Delete(hash: string)
      requires Valid()
      modifies this`disk, this`seen, this`index, this`memOrder, this`memBlobs, this`memBytes
      ensures Valid() && (old(Trusted()) ==> Trusted())
      ensures forall h :: Reads(codec, disk, h) == if h == hash then None else Reads(codec, old(disk), h)
      ensures seen == old(seen) || seen == old(seen) + iset{disk}
    {
      ghost var d := disk;
      DropKeepsStep(codec, disk, index, memBlobs, packBuffer, pending, nextPackId, {hash});
      if hash in index {
        DropBlobs({hash});
        RewriteIndex();
      } else {
        CacheDelete(hash);
        assert index - {hash} == index;
      }
    }

    // -------------------------------------------------------- retire and compact

    /** Remove a pack file and forget its entries; no promised hash may lead there. */
    method RetirePack(p: nat, ghost ks: iset<string>)
      requires Inv() && Safe(codec, disk, ks) && HeldOutside(index, {p}, ks)
      modifies this`disk, this`seen, this`index, this`memOrder, this`memBlobs, this`memBytes
      ensures Inv() && (old(Trusted()) ==> Trusted())
      ensures disk == old(disk).(packs := old(disk).packs - {p}) && index == old(index) - Of(old(index), {p})
      ensures Safe(codec, disk, ks) && OnlySafe(codec, old(seen), seen, ks)
    {
      RetireKeepsStep(codec, disk, index, memBlobs, packBuffer, pending, nextPackId, p);
      RetireIsSafe(codec, disk, index, p, ks);
      RemovePack(p);
      DropBlobs(Of(index, {p}));
    }

    /** Remove several packs, one after another. */
    method RetirePacks(packs: set<nat>, ghost ks: iset<string>)
      requires Inv() && Safe(codec, disk, ks) && HeldOutside(index, packs, ks)
      modifies this`disk, this`seen, this`index, this`memOrder, this`memBlobs, this`memBytes
      ensures Inv() && (old(Trusted()) ==> Trusted())
      ensures disk == old(disk).(packs := old(disk).packs - packs) && index == old(index) - Of(old(index), packs)
      ensures Safe(codec, disk, ks) && OnlySafe(codec, old(seen), seen, ks)
    {
      var done, todo: set<nat> := {}, packs;
      assert index - Of(index, {}) == index;
      while todo != {}
        invariant todo !! done && todo + done == packs
        invariant Inv() && (old(Trusted()) ==> Trusted())
        invariant disk == old(disk).(packs := old(disk).packs - done) && index == old(index) - Of(old(index), done)
        invariant Safe(codec, disk, ks) && OnlySafe(codec, old(seen), seen, ks)
        decreases todo
      {
        var p :| p in todo;
        OfSplit(old(index), done, p);
        ghost var now := seen;
        RetirePack(p, ks);
        OnlySafeThen(codec, old(seen), now, seen, ks);
        done, todo := done + {p}, todo - {p};
      }
      assert done == packs;
    }

    /** Make the buffer durable first, only then remove the packs its blobs were read from. */
    method FlushAndRetire(packs: set<nat>, ghost ks: iset<string>)
      requires Inv() && Safe(codec, disk, ks) && Buffered(index, packBuffer, packs, ks)
      requires packBuffer == [] || nextPackId !in packs
      modifies this
      ensures Inv() && (old(Trusted()) ==> Trusted()) && packBuffer == [] && pending == {}
      ensures Safe(codec, disk, ks) && Held(index, ks) && OnlySafe(codec, old(seen), seen, ks)
      ensures LedOut(old(index), index, HashesOf(old(packBuffer)), packs, old(nextPackId))
      ensures nextPackId == old(nextPackId) + if old(packBuffer) == [] then 0 else 1
      ensures OldPacks(old(disk), disk, old(nextPackId), packs)
      ensures var m := Reindex(old(index), IndexDelta(old(packBuffer), old(nextPackId)));
        index == m - Of(m, packs) && disk == RemovedAfter(old(disk), old(packBuffer), old(nextPackId), packs)
      ensures packs == {} && old(index == LoadIndex(disk.index)) ==> index == LoadIndex(disk.index)
    {
      ghost var d, m, items, n, seen0 := disk, index, packBuffer, nextPackId, seen;
      FlushLeadsOut(codec, d, m, n, items, packs, ks);
      EmptyDelta(n);
      FlushPack();
      FlushOnlySafe(codec, d, seen0, seen, ks);
      SafeThrough(codec, d, disk, ks);
      ghost var now := seen;
      RetireFlushed(packs, ks, d, m, items, n);
      OnlySafeThen(codec, seen0, now, seen, ks);
      assert packs == {} ==> now == seen0 || index == Reindex(m, IndexDelta(items, n)) - {};
    }

    /** Remove the packs a flush was read from. */
    method RetireFlushed(packs: set<nat>, ghost ks: iset<string>, ghost d: Disk, ghost m: Index, ghost items: seq<Item>, ghost n: nat)
      requires Inv() && packBuffer == [] && pending == {} && Safe(codec, disk, ks) && HeldOutside(index, packs, ks)
      requires PacksBelow(d, n) && (items == [] || n !in packs) && SoundItems(codec, items) && Within(m, LoadIndex(d.index))
      requires disk == if items == [] then d else Flushed(d, n, items, |items|)
      requires index == Reindex(m, IndexDelta(items, n))
      modifies this`disk, this`seen, this`index, this`memOrder, this`memBlobs, this`memBytes
      ensures Inv() && (old(Trusted()) ==> Trusted())
      ensures Safe(codec, disk, ks) && Held(index, ks) && OnlySafe(codec, old(seen), seen, ks)
      ensures LedOut(m, index, HashesOf(items), packs, n) && OldPacks(d, disk, n, packs)
      ensures disk == old(disk).(packs := old(disk).packs - packs) && index == old(index) - Of(old(index), packs)
    {
      FlushThenDrop(codec, d, m, n, items, packs);
      RetirePacks(packs, ks);
      forall p: nat | p < n ensures OldPackAt(d, disk, packs, p) {
      }
    }

    method RebufferBlob(h: string) returns (threw: bool)
      requires Inv()
      modifies this`memOrder, this`memBlobs, this`memBytes, this`packBuffer, this`pending
      ensures Inv() && pending <= old(pending) + {h}
      ensures HashesOf(old(packBuffer)) <= HashesOf(packBuffer) <= HashesOf(old(packBuffer)) + {h}
      ensures threw ==> h in index && Undecodable(codec, disk, index, index[h].packId)
      ensures !threw && ReadVia(codec, disk, index, h).Some? ==> h in HashesOf(packBuffer)
      ensures h in HashesOf(packBuffer) && h !in HashesOf(old(packBuffer)) && h !in old(pending) ==>
        ReadVia(codec, disk, index, h).Some?
    {
      var bytes;
      bytes, threw := Get(h);
      if bytes.Some? {
        var it := Item(h, codec.enc(bytes.value));
        EncodedIsSound(codec, bytes.value);
        PushItem(codec, packBuffer, it);
        PendMore(codec, disk, index, memBlobs, packBuffer, pending, nextPackId, it);
        pending := pending + {h};
        packBuffer := packBuffer + [it];
      }
    }

    /** Put the live blobs that still verify back into the buffer, past the dedup guard. */
    method RebufferLive(live: set<string>) returns (threw: bool)
      requires Inv()
      modifies this`memOrder, this`memBlobs, this`memBytes, this`packBuffer, this`pending
      ensures Inv()
      ensures HashesOf(packBuffer) <= HashesOf(old(packBuffer)) + live
      ensures threw ==> exists h :: h in live && h in index && Undecodable(codec, disk, index, index[h].packId)
      ensures !threw ==> forall h :: h in live && ReadVia(codec, disk, index, h).Some? ==> h in HashesOf(packBuffer)
      ensures old(packBuffer) == [] ==>
        forall h :: h in HashesOf(packBuffer) ==> ReadVia(codec, disk, index, h).Some?
    {
      threw := false;
      var todo := live;
      while todo != {}
        invariant todo <= live && Inv()
        invariant HashesOf(packBuffer) <= HashesOf(old(packBuffer)) + (live - todo)
        invariant forall h :: h in live && h !in todo && ReadVia(codec, disk, index, h).Some? ==> h in HashesOf(packBuffer)
        invariant old(packBuffer) == [] ==>
          forall h :: h in HashesOf(packBuffer) ==> ReadVia(codec, disk, index, h).Some?
        decreases todo
      {
        var h :| h in todo;
        todo := todo - {h};
        threw := RebufferBlob(h);
        if threw {
          return;
        }
      }
    }

    /** Rewrite the live blobs of a pack into a fresh one, durably, and drop the old pack. */
    method CompactPack(p: nat, keep: set<string>, ghost ks: iset<string>) returns (threw: bool, ghost moved: set<string>)
      requires Inv() && Safe(codec, disk, ks) && Held(index, ks)
      requires packBuffer == [] || p < nextPackId
      requires forall h :: h in ks ==> h in keep
      modifies this
      ensures Inv() && (old(Trusted()) ==> Trusted())
      ensures threw ==> disk == old(disk) && index == old(index) && nextPackId == old(nextPackId) && seen == old(seen)
      ensures threw ==> Undecodable(codec, disk, index, p)
      ensures !threw ==> packBuffer == [] && pending == {}
      ensures Safe(codec, disk, ks) && Held(index, ks) && OnlySafe(codec, old(seen), seen, ks)
      ensures !threw ==> LedOut(old(index), index, moved, {p}, old(nextPackId))
      ensures !threw && old(packBuffer) == [] ==> moved == Survivors(codec, old(disk), old(index), keep, {p})
      ensures nextPackId >= old(nextPackId) && (!threw ==> OldPacks(old(disk), disk, old(nextPackId), {p}))
      ensures !threw && old(packBuffer) == [] ==> Compacts(codec, p, old(Now({})), Now({}))
    {
      ghost var d, m, n := disk, index, nextPackId;
      var live := Of(index, {p}) * keep;
      OnlySafeNow(codec, seen, ks);
      threw := RebufferLive(live);
      moved := HashesOf(packBuffer);
      if !threw {
        AllBuffered(codec, disk, index, packBuffer, keep, p, ks);
        AllSurvive(codec, disk, index, packBuffer, keep, p);
        ghost var items := packBuffer;
        FlushAndRetire({p}, ks);
        if HashesOf(items) <= Of(m, {p}) {
          CompactsIs(codec, p, d, m, items, n, disk, index);
        }
      }
    }

    /** Compact several packs, up to the first that throws. */
    method CompactPacks(packs: set<nat>, pass: Pass, ghost retired: set<nat>, ghost moved: set<nat>)
      returns (threw: bool, ghost done: set<nat>)
      requires Inv() && Passing(codec, pass, disk, index, nextPackId, retired, moved)
      requires NotYetTaken(pass, retired, moved, packs)
      requires packBuffer == [] || (!pass.quiet && forall p :: p in packs ==> p < nextPackId)
      modifies this
      ensures Inv() && (old(Trusted()) ==> Trusted()) && OnlySafe(codec, old(seen), seen, pass.promised)
      ensures Safe(codec, disk, pass.promised)
      ensures threw ==> MayThrow(codec, pass, packs)
      ensures done <= packs && (!threw ==> done == packs)
      ensures Passing(codec, pass, disk, index, nextPackId, retired, moved + done)
      ensures !threw ==> if packs == {} then
          packBuffer == old(packBuffer) && pending == old(pending) && index == old(index) && disk == old(disk)
        else packBuffer == [] && pending == {}
      ensures !threw && pass.quiet ==> Others(old(index), index, packs)
    {
      threw := false;
      done := {};
      var todo := packs;
      assert moved + {} == moved;
      OnlySafeNow(codec, seen, pass.promised);
      forall h ensures OtherAt(index, index, {}, h) {
      }
      while todo != {}
        invariant todo <= packs && done == packs - todo
        invariant (old(Trusted()) ==> Trusted()) && nextPackId >= old(nextPackId)
        invariant if todo == packs then
            packBuffer == old(packBuffer) && pending == old(pending) && index == old(index) && disk == old(disk)
          else packBuffer == [] && pending == {}
        invariant Compacting(old(seen), old(index), pass, retired, moved, done)
        decreases todo
      {
        var p :| p in todo;
        threw := CompactNext(p, pass, retired, moved, done, old(seen), old(index));
        if threw {
          return;
        }
        done, todo := done + {p}, todo - {p};
      }
      assert done == packs;
    }

    /** Part way through compacting packs: sound, safe throughout, and, if accounts are kept, nothing else moved. */
    ghost predicate Compacting(before: iset<Disk>, m0: Index, pass: Pass, retired: set<nat>, moved: set<nat>, done: set<nat>)
      reads this
    {
      && Inv() && OnlySafe(codec, before, seen, pass.promised)
      && Passing(codec, pass, disk, index, nextPackId, retired, moved + done)
      && (pass.quiet ==> Others(m0, index, done))
    }

    method CompactNext(
      p: nat, pass: Pass, ghost retired: set<nat>, ghost moved: set<nat>, ghost done: set<nat>, ghost before: iset<Disk>,
      ghost m0: Index)
      returns (threw: bool)
      requires Compacting(before, m0, pass, retired, moved, done)
      requires NotYetTaken(pass, retired, moved + done, {p})
      requires packBuffer == [] || (!pass.quiet && p < nextPackId)
      modifies this
      ensures Inv() && (old(Trusted()) ==> Trusted()) && nextPackId >= old(nextPackId)
      ensures OnlySafe(codec, before, seen, pass.promised) && Safe(codec, disk, pass.promised)
      ensures threw && p < pass.next ==> Undecodable(codec, pass.disk, pass.index, p)
      ensures threw ==> Passing(codec, pass, disk, index, nextPackId, retired, moved + done)
      ensures !threw ==> packBuffer == [] && pending == {} && Compacting(before, m0, pass, retired, moved, done + {p})
    {
      ghost var d, m, n, now := disk, index, nextPackId, seen;
      ghost var out;
      threw, out := CompactPack(p, pass.keep, pass.promised);
      OnlySafeThen(codec, before, now, seen, pass.promised);
      if threw {
        if p < pass.next {
          StillDecodes(codec, pass, disk, index, nextPackId, retired, moved + done, p);
        }
      } else {
        PassOn(codec, pass, d, m, n, retired, moved + done, disk, index, nextPackId, {p}, out);
        assert (moved + done) + {p} == moved + (done + {p});
        if pass.quiet {
          LedOutOthers(m, index, out, {p}, n);
          OthersThen(m0, m, index, done, p);
        }
      }
    }

    method RetireNext(p: nat, pass: Pass, ghost packs: set<nat>, ghost todo: set<nat>)
      requires Inv() && nextPackId == pass.next
      requires Retiring(codec, pass, disk, index, packs, todo) && p in todo && DeadIn(pass, packs, p)
      modifies this`disk, this`seen, this`index, this`memOrder, this`memBlobs, this`memBytes
      ensures Inv() && (old(Trusted()) ==> Trusted()) && Retiring(codec, pass, disk, index, packs, todo - {p})
      ensures OnlySafe(codec, old(seen), seen, pass.promised)
    {
      ghost var retired := packs - todo;
      WithoutIs(pass.index, index, retired);
      SameMembers(pass.index, retired, p);
      DeadHoldsNoPromise(index, pass.keep, pass.promised, p);
      PassRetires(codec, pass, disk, index, retired, p);
      RetirePack(p, pass.promised);
      WithoutIs(pass.index, index, retired + {p});
      assert packs - (todo - {p}) == retired + {p};
    }

    /** Remove packs that hold no live blob, with everything that points to them. */
    method RetireDead(packs: set<nat>, pass: Pass)
      requires Inv() && index == pass.index && nextPackId == pass.next
      requires Passing(codec, pass, disk, index, nextPackId, {}, {})
      requires forall p: nat :: DeadIn(pass, packs, p)
      modifies this`disk, this`seen, this`index, this`memOrder, this`memBlobs, this`memBytes
      ensures Inv() && (old(Trusted()) ==> Trusted()) && Passing(codec, pass, disk, index, nextPackId, packs, {})
      ensures WithoutPacks(pass.index, index, packs) && (packs == {} ==> disk == old(disk))
      ensures OnlySafe(codec, old(seen), seen, pass.promised)
    {
      RetiringStarts(codec, pass, disk, packs);
      OnlySafeNow(codec, seen, pass.promised);
      var todo := packs;
      while todo != {}
        invariant todo <= packs && (todo == packs ==> disk == old(disk))
        invariant Inv() && (old(Trusted()) ==> Trusted()) && Retiring(codec, pass, disk, index, packs, todo)
        invariant OnlySafe(codec, old(seen), seen, pass.promised)
        decreases todo
      {
        var p :| p in todo;
        assert DeadIn(pass, packs, p);
        ghost var now := seen;
        RetireNext(p, pass, packs, todo);
        OnlySafeThen(codec, old(seen), now, seen, pass.promised);
        todo := todo - {p};
      }
      assert packs - {} == packs;
    }

    /**
     * Collect aged packs: the wholly dead are removed, the mostly dead rewritten. Whatever disk state
     * a crash leaves, every kept hash that could be read still can, on whatever disk the store was
     * opened. It throws only where a pack to be rewritten holds a slice that is not base64, and has
     * then lost nothing either.
     */
    method Gc(keep: set<string>, mtime: map<nat, int>, retentionMs: int, now: int) returns (threw: bool)
      requires Inv()
      modifies this
      ensures Inv() && (!threw && old(Valid()) ==> Valid())
      ensures OnlySafe(codec, old(seen), seen, Promised(codec, old(disk), old(index), keep))
      ensures Safe(codec, disk, Promised(codec, old(disk), old(index), keep))
      ensures old(Trusted()) ==> Trusted()
      ensures threw ==> exists p ::
        p in GcCompacted(old(disk), old(index), keep, mtime, retentionMs, now) && Undecodable(codec, old(disk), old(index), p)
      ensures !threw && old(packBuffer) == [] ==>
        && Fated(codec, old(disk), old(index), index, keep, GcRetired(old(disk), old(index), keep, mtime, retentionMs, now),
             GcCompacted(old(disk), old(index), keep, mtime, retentionMs, now), old(nextPackId))
        && |PackIds(index)| <= |PackIds(old(index))|
      ensures old(packBuffer) == [] ==> forall p: nat ::
        !(p in old(disk).packs && p in mtime && now - mtime[p] >= retentionMs) ==>
          KeptWhole(old(disk), old(index), disk, index, p)
      ensures !threw && old(packBuffer) == [] ==> forall p: nat ::
        p in old(disk).packs && p in mtime && now - mtime[p] >= retentionMs ==>
          Collected(codec, old(disk), old(index), keep, disk, index, p, old(nextPackId))
    {
      var pass := Pass(packBuffer == [], disk, index, keep, Promised(codec, disk, index, keep), nextPackId);
      PassStarts(codec, pass, index);
      var retired := GcRetired(disk, index, keep, mtime, retentionMs, now);
      var compacted := GcCompacted(disk, index, keep, mtime, retentionMs, now);
      GcPicks(pass, mtime, retentionMs, now);
      ghost var done;
      threw, done := RunGc(pass, retired, compacted);
      if pass.quiet {
        forall p: nat | !(p in pass.disk.packs && p in mtime && now - mtime[p] >= retentionMs)
          ensures KeptWhole(pass.disk, pass.index, disk, index, p)
        {
          YoungStaysWhole(codec, pass, disk, index, nextPackId, mtime, retentionMs, now, done, p);
        }
        forall p: nat | !threw && p in pass.disk.packs && p in mtime && now - mtime[p] >= retentionMs
          ensures Collected(codec, pass.disk, pass.index, keep, disk, index, p, pass.next)
        {
          OldIsCollected(codec, pass, disk, index, nextPackId, mtime, retentionMs, now, p);
        }
      }
    }

    /** The two phases of a collection, and the index rewrite that ends them. */
    method RunGc(pass: Pass, retired: set<nat>, compacted: set<nat>) returns (threw: bool, ghost done: set<nat>)
      requires Inv() && index == pass.index && nextPackId == pass.next && pass.quiet == (packBuffer == [])
      requires Passing(codec, pass, disk, index, nextPackId, {}, {})
      requires pass.promised == Promised(codec, pass.disk, pass.index, pass.keep)
      requires (forall p: nat :: DeadIn(pass, retired, p)) && compacted !! retired && forall p :: p in compacted ==> p < pass.next
      modifies this
      ensures Inv() && (!threw && old(Valid()) ==> Valid()) && (old(Trusted()) ==> Trusted())
      ensures OnlySafe(codec, old(seen), seen, pass.promised) && Safe(codec, disk, pass.promised)
      ensures threw ==> MayThrow(codec, pass, compacted)
      ensures done <= compacted && (!threw ==> done == compacted)
      ensures Passing(codec, pass, disk, index, nextPackId, retired, done)
    {
      RetireDead(retired, pass);
      WithoutIs(pass.index, index, retired);
      assert retired == {} ==> index == pass.index;
      ghost var now := seen;
      threw, done := CompactAndFinish(pass, retired, retired != {}, {}, compacted);
      OnlySafeThen(codec, old(seen), now, seen, pass.promised);
      assert {} + done == done;
    }

    /** Fold what a pass dropped into a clean index file. */
    method FinishPass(pass: Pass, ghost retired: set<nat>, ghost moved: set<nat>, dirty: bool)
      requires Inv() && Passing(codec, pass, disk, index, nextPackId, retired, moved)
      modifies this`disk, this`seen
      ensures Inv() && (old(Trusted()) ==> Trusted()) && Passing(codec, pass, disk, index, nextPackId, retired, moved)
      ensures if dirty then index == LoadIndex(disk.index) else disk == old(disk) && seen == old(seen)
      ensures OnlySafe(codec, old(seen), seen, pass.promised)
    {
      OnlySafeNow(codec, seen, pass.promised);
      if dirty {
        ghost var d := disk;
        RewriteIndex();
        PassRewrites(codec, pass, d, disk, index, nextPackId, retired, moved);
      }
    }

    // --------------------------------------------------------------- consolidation

    /** Move one blob of a pack into the buffer if it is kept and verifies. */
    method MergeBlob(h: string, packText: string, keep: set<string>) returns (kept: bool, threw: bool)
      requires Inv() && h in index && index[h].packId in disk.packs && packText == disk.packs[index[h].packId]
      modifies this`packBuffer
      ensures Inv() && (!threw ==> kept == (h in keep && ReadVia(codec, disk, index, h).Some?))
      ensures threw ==> !kept && Undecodable(codec, disk, index, index[h].packId)
      ensures |packBuffer| == |old(packBuffer)| + if kept then 1 else 0
      ensures HashesOf(packBuffer) == HashesOf(old(packBuffer)) + if kept then {h} else {}
    {
      kept, threw := false, false;
      if h !in keep {
        return;
      }
      var content;
      content, threw := VerifyMember(h);
      if content.Some? {
        var body := Substr(packText, index[h].offset, index[h].len);
        PushItem(codec, packBuffer, Item(h, body));
        packBuffer := packBuffer + [Item(h, body)];
        kept := true;
      }
    }

    /** Move the surviving blobs of one pack into the buffer, counting every member once. */
    method MergePack(p: nat, members: set<string>, keep: set<string>) returns (kept: nat, dropped: nat, threw: bool)
      requires Inv() && p in disk.packs && Of(index, {p}) <= members
      modifies this`packBuffer
      ensures Inv() && (threw ==> Undecodable(codec, disk, index, p))
      ensures !threw ==> |packBuffer| == |old(packBuffer)| + kept
      ensures !threw ==>
        HashesOf(packBuffer) == HashesOf(old(packBuffer)) + Survivors(codec, disk, index, keep, {p})
      ensures !threw ==> kept == |Survivors(codec, disk, index, keep, {p})| && kept + dropped == |Of(index, {p})|
    {
      kept, dropped, threw := 0, 0, false;
      var packText := disk.packs[p];
      var todo := members;
      ghost var all, live := Of(index, {p}), Survivors(codec, disk, index, keep, {p});
      MembersOf(codec, disk, index, keep, p);
      CountedAll(all, live, members, packBuffer);
      while todo != {}
        invariant Inv()
        invariant Counted(all, live, todo, old(packBuffer), packBuffer, kept, dropped)
        decreases todo
      {
        var h :| h in todo;
        assert MemberAt(codec, disk, index, keep, p, all, live, h);
        kept, dropped, threw := MergeMember(h, p, packText, keep, all, live, todo, old(packBuffer), kept, dropped);
        if threw {
          return;
        }
        todo := todo - {h};
      }
      CountedDone(all, live, old(packBuffer), packBuffer, kept, dropped);
    }

    method MergeMember(
      h: string, p: nat, packText: string, keep: set<string>, ghost all: set<string>, ghost live: set<string>,
      ghost todo: set<string>, ghost items0: seq<Item>, kept0: nat, dropped0: nat)
      returns (kept: nat, dropped: nat, threw: bool)
      requires Inv() && h in todo && p in disk.packs && packText == disk.packs[p]
      requires live <= all && MemberAt(codec, disk, index, keep, p, all, live, h)
      requires Counted(all, live, todo, items0, packBuffer, kept0, dropped0)
      modifies this`packBuffer
      ensures Inv() && (threw ==> Undecodable(codec, disk, index, p))
      ensures !threw ==> Counted(all, live, todo - {h}, items0, packBuffer, kept, dropped)
    {
      kept, dropped, threw := kept0, dropped0, false;
      ghost var items := packBuffer;
      if h in index && index[h].packId == p {
        var keeps;
        keeps, threw := MergeBlob(h, packText, keep);
        if threw {
          return;
        }
        if keeps {
          kept := kept + 1;
        } else {
          dropped := dropped + 1;
        }
      }
      CountStep(all, live, todo, items0, items, packBuffer, kept0, dropped0, h);
    }

    /** Where a merge stands, for the rounds of `PackReuse`. */
    ghost function Now(waiting: set<nat>): Run
      reads this`disk, this`index, this`packBuffer, this`nextPackId
    {
      Run(disk, index, packBuffer, waiting, nextPackId)
    }

    /** Flush the merged blobs, then remove the packs they came from; nothing to do if there are neither. */
    method FlushDeferred(waiting: set<nat>, pass: Pass, ghost retired: set<nat>, ghost moved: set<nat>)
      requires Inv()
      requires Merging(codec, pass, disk, index, packBuffer, nextPackId, retired, moved, waiting)
      modifies this
      ensures Inv() && (old(Trusted()) ==> Trusted()) && packBuffer == [] && pending == {}
      ensures Merging(codec, pass, disk, index, packBuffer, nextPackId, retired, moved + waiting, {})
      ensures OnlySafe(codec, old(seen), seen, pass.promised)
      ensures Now({}) == FlushRun(pass.index, old(Now(waiting)))
      ensures waiting == {} && old(index == LoadIndex(disk.index)) ==> index == LoadIndex(disk.index)
    {
      assert moved + {} == moved;
      if packBuffer == [] && waiting == {} {
        OnlySafeNow(codec, seen, pass.promised);
        return;
      }
      ghost var d, m, n, out := disk, index, nextPackId, HashesOf(packBuffer);
      ghost var before := Now(waiting);
      LeftoverIsAll(codec, pass, d, m, packBuffer, n, retired, moved, waiting);
      FlushAndRetire(waiting, pass.promised);
      FlushRunIs(pass.index, before);
      PassOn(codec, pass, d, m, n, retired, moved, disk, index, nextPackId, waiting, out);
      MergeStarts(codec, pass, disk, index, packBuffer, nextPackId, retired, moved + waiting);
    }

    /** Merge packs, in order, into fresh ones of about `flushEvery` blobs. */
    method StreamMerge(order: seq<nat>, flushEvery: nat, pass: Pass, ghost retired: set<nat>)
      returns (kept: nat, dropped: nat, threw: bool, ghost moved: set<nat>)
      requires Inv() && nextPackId == pass.next && (pass.quiet ==> packBuffer == [])
      requires Passing(codec, pass, disk, index, nextPackId, retired, {})
      requires Visited(order, |order|) !! retired && EachOnce(order, Visited(order, |order|))
      requires Unshared(codec, pass, order, flushEvery)
      modifies this
      ensures Inv() && (old(Trusted()) ==> Trusted()) && OnlySafe(codec, old(seen), seen, pass.promised)
      ensures Safe(codec, disk, pass.promised)
      ensures threw ==> MayThrow(codec, pass, Visited(order, |order|))
      ensures !threw ==> packBuffer == [] && pending == {} && moved <= Visited(order, |order|)
      ensures !threw ==> Passing(codec, pass, disk, index, nextPackId, retired, moved)
      ensures !threw ==>
        Merges(codec, old(disk), old(index), old(packBuffer), pass.index, old(nextPackId), pass.keep, flushEvery, order, Now({}))
      ensures !threw && order == [] && old(index == LoadIndex(disk.index)) ==> index == LoadIndex(disk.index)
      ensures !threw && pass.quiet ==>
        && moved == Present(pass.disk, Visited(order, |order|))
        && kept == |Survivors(codec, pass.disk, pass.index, pass.keep, moved)|
        && kept + dropped == |Of(pass.index, moved)|
        && (flushEvery > 0 ==> nextPackId - pass.next <= kept / flushEvery + 1)
    {
      kept, dropped, moved := 0, 0, {};
      var s;
      ghost var start := Now({});
      s, threw := MergeRounds(order, flushEvery, pass, retired);
      if threw {
        return;
      }
      ghost var now, last := seen, Now(s.waiting);
      SliceEnds(order, |order|);
      StreamBound(codec, pass, disk, index, packBuffer, nextPackId, retired, order, |order|, flushEvery, s);
      FlushDeferred(s.waiting, pass, retired, s.removed);
      FlushCounts(pass.index, last);
      OnlySafeThen(codec, old(seen), now, seen, pass.promised);
      kept, dropped, moved := s.kept, s.dropped, s.removed + s.waiting;
    }

    /** After the first `k` packs: sound, safe throughout, and as the rounds of `PackReuse` have it. */
    ghost predicate MergedSoFar(
      before: iset<Disk>, start: Run, order: seq<nat>, k: nat, flushEvery: nat, pass: Pass, retired: set<nat>, s: Merge)
      requires k <= |order|
      reads this
    {
      && Inv() && OnlySafe(codec, before, seen, pass.promised)
      && Streaming(codec, pass, disk, index, packBuffer, nextPackId, retired, order, k, flushEvery, s)
      && Rounds(codec, pass.index, pass.keep, flushEvery, order[..k], start, Now(s.waiting))
    }

    /** The loop over the packs. */
    method MergeRounds(order: seq<nat>, flushEvery: nat, pass: Pass, ghost retired: set<nat>)
      returns (s: Merge, threw: bool)
      requires Inv() && nextPackId == pass.next && (pass.quiet ==> packBuffer == [])
      requires Passing(codec, pass, disk, index, nextPackId, retired, {})
      requires Visited(order, |order|) !! retired && EachOnce(order, Visited(order, |order|))
      requires Unshared(codec, pass, order, flushEvery)
      modifies this
      ensures Inv() && (old(Trusted()) ==> Trusted()) && OnlySafe(codec, old(seen), seen, pass.promised)
      ensures Safe(codec, disk, pass.promised)
      ensures threw ==> MayThrow(codec, pass, Visited(order, |order|))
      ensures !threw ==> MergedSoFar(old(seen), old(Now({})), order, |order|, flushEvery, pass, retired, s)
      ensures !threw && order == [] ==> s == Merge({}, {}, 0, 0)
      ensures !threw && order == [] && old(index == LoadIndex(disk.index)) ==> index == LoadIndex(disk.index)
    {
      var k := 0;
      s, threw := Merge({}, {}, 0, 0), false;
      ghost var start := Now({});
      StreamStarts(codec, pass, disk, index, packBuffer, retired, order, flushEvery);
      OnlySafeNow(codec, seen, pass.promised);
      SliceEnds(order, 0);
      while k < |order|
        invariant k <= |order| && (k == 0 ==> s == Merge({}, {}, 0, 0))
        invariant k == 0 && old(index == LoadIndex(disk.index)) ==> index == LoadIndex(disk.index)
        invariant (old(Trusted()) ==> Trusted()) && MergedSoFar(old(seen), start, order, k, flushEvery, pass, retired, s)
      {
        ghost var before, now := Now(s.waiting), seen;
        s, threw := MergeRound(order, k, pass, retired, flushEvery, s);
        OnlySafeThen(codec, old(seen), now, seen, pass.promised);
        if threw {
          return;
        }
        RoundsMore(codec, pass.index, pass.keep, flushEvery, order, k, start, before, Now(s.waiting));
        k := k + 1;
      }
    }

    /** One pack of the merge, and a flush once enough is buffered. */
    method MergeRound(
      order: seq<nat>, k: nat, pass: Pass, ghost retired: set<nat>, flushEvery: nat, s0: Merge)
      returns (s: Merge, threw: bool)
      requires Inv() && k < |order|
      requires Visited(order, |order|) !! retired && EachOnce(order, Visited(order, |order|))
      requires Unshared(codec, pass, order, flushEvery)
      requires Streaming(codec, pass, disk, index, packBuffer, nextPackId, retired, order, k, flushEvery, s0)
      modifies this
      ensures Inv() && (old(Trusted()) ==> Trusted()) && OnlySafe(codec, old(seen), seen, pass.promised)
      ensures Safe(codec, disk, pass.promised)
      ensures threw ==> Undecodable(codec, pass.disk, pass.index, order[k])
      ensures !threw ==> Streaming(codec, pass, disk, index, packBuffer, nextPackId, retired, order, k + 1, flushEvery, s)
      ensures !threw ==> Round(codec, pass.index, pass.keep, flushEvery, order[k], old(Now(s0.waiting)), Now(s.waiting))
    {
      ghost var d, m, items, n := disk, index, packBuffer, nextPackId;
      var p := order[k];
      NextIsOld(codec, pass, d, m, items, n, retired, order, k, flushEvery, s0);
      OnlySafeNow(codec, seen, pass.promised);
      if p !in disk.packs {
        StreamSkips(codec, pass, d, m, items, n, retired, order, k, flushEvery, s0);
        s, threw := s0, false;
      } else {
        s, threw := TakeNext(p, pass, retired, flushEvery, s0);
        if !threw {
          StreamTakes(codec, pass, d, m, items, n, retired, order, k, flushEvery, s0, disk, index, packBuffer, nextPackId, s);
        }
      }
    }

    /** Take one pack into the merge, and flush once enough is buffered. */
    method TakeNext(p: nat, pass: Pass, ghost retired: set<nat>, flushEvery: nat, s0: Merge) returns (s: Merge, threw: bool)
      requires Inv() && Merging(codec, pass, disk, index, packBuffer, nextPackId, retired, s0.removed, s0.waiting)
      requires p in disk.packs && p < pass.next && p !in retired && p !in s0.removed && p !in s0.waiting
      modifies this
      ensures Inv() && (old(Trusted()) ==> Trusted()) && OnlySafe(codec, old(seen), seen, pass.promised)
      ensures Safe(codec, disk, pass.promised) && nextPackId >= old(nextPackId)
      ensures threw ==> Undecodable(codec, pass.disk, pass.index, p)
      ensures !threw ==>
        && Merging(codec, pass, disk, index, packBuffer, nextPackId, retired, s.removed, s.waiting)
        && Took(codec, pass, p, flushEvery, s0, Course(pass.next, old(nextPackId), old(packBuffer)), s,
             Course(pass.next, nextPackId, packBuffer))
        && Round(codec, pass.index, pass.keep, flushEvery, p, old(Now(s0.waiting)), Now(s.waiting))
    {
      var more, less;
      ghost var before := Now(s0.waiting);
      OnlySafeNow(codec, seen, pass.promised);
      more, less, threw := MergeNext(p, pass, retired, s0.removed, s0.waiting);
      s := s0;
      if !threw {
        s := Merge(s0.waiting + {p}, s0.removed, s0.kept + more, s0.dropped + less);
        ghost var full, s1 := Now(s.waiting), s;
        s := FlushIfFull(pass, retired, flushEvery, s);
        TakenIs(codec, pass, p, flushEvery, s0, s1, s, before, full, Now(s.waiting));
      }
    }

    /** Flush once enough is buffered. */
    method FlushIfFull(pass: Pass, ghost retired: set<nat>, flushEvery: nat, s0: Merge) returns (s: Merge)
      requires Inv() && Merging(codec, pass, disk, index, packBuffer, nextPackId, retired, s0.removed, s0.waiting)
      modifies this
      ensures Inv() && (old(Trusted()) ==> Trusted()) && OnlySafe(codec, old(seen), seen, pass.promised)
      ensures Merging(codec, pass, disk, index, packBuffer, nextPackId, retired, s.removed, s.waiting)
      ensures s.removed + s.waiting == s0.removed + s0.waiting && s.kept == s0.kept && s.dropped == s0.dropped
      ensures Now(s.waiting) ==
        if |old(packBuffer)| < flushEvery then old(Now(s0.waiting)) else FlushRun(pass.index, old(Now(s0.waiting)))
    {
      s := s0;
      if |packBuffer| >= flushEvery {
        FlushDeferred(s.waiting, pass, retired, s.removed);
        s := Merge({}, s.removed + s.waiting, s.kept, s.dropped);
      } else {
        OnlySafeNow(codec, seen, pass.promised);
      }
    }

    /** Buffer what survives of one small pack. */
    method MergeNext(p: nat, pass: Pass, ghost retired: set<nat>, ghost moved: set<nat>, ghost waiting: set<nat>)
      returns (kept: nat, dropped: nat, threw: bool)
      requires Inv()
      requires Merging(codec, pass, disk, index, packBuffer, nextPackId, retired, moved, waiting)
      requires p in disk.packs && p < pass.next && p !in retired && p !in moved && p !in waiting
      modifies this`packBuffer
      ensures Inv() && (threw ==> Undecodable(codec, pass.disk, pass.index, p))
      ensures !threw ==> |packBuffer| == |old(packBuffer)| + kept
      ensures !threw ==> Merging(codec, pass, disk, index, packBuffer, nextPackId, retired, moved, waiting + {p})
      ensures !threw && pass.quiet ==>
        && p in pass.disk.packs && kept == |Survivors(codec, pass.disk, pass.index, pass.keep, {p})|
        && kept + dropped == |Of(pass.index, {p})|
      ensures !threw ==> Takes(codec, pass.index, pass.keep, p, old(Now(waiting)), Now(waiting + {p}))
    {
      MembersNow(codec, pass, disk, index, nextPackId, retired, moved, p);
      ghost var items := packBuffer;
      kept, dropped, threw := MergePack(p, Of(pass.index, {p}), pass.keep);
      if threw {
        StillDecodes(codec, pass, disk, index, nextPackId, retired, moved, p);
      } else {
        MergeOneMore(codec, pass, disk, index, items, nextPackId, retired, moved, waiting, p, packBuffer);
        MovesAll(codec, pass.index, pass.keep, p, Now(waiting));
      }
    }

    /**
     * Defragment: retire wholly dead packs, merge small ones in the order the index lists them, compact
     * the larger mixed ones. Unless the merge hands a small pack's id out before that pack's turn,
     * every kept hash that could be read still can, whatever disk state a crash leaves, and also where
     * a slice that is not base64 makes it throw. (`ConsolidationLoses` is the converse.) From an empty buffer,
     * with every mixed pack's id given out before: exactly the surviving kept blobs of the packs it
     * touched remain, the counts are theirs, there are no more packs than before, and the merged blobs
     * sit in at most one pack per `flushEvery` of them, and one more.
     */
    method ConsolidatePacks(keep: set<string>, smallPackThreshold: nat, flushEvery: nat, order: seq<nat>)
      returns (packsBefore: nat, packsAfter: nat, blobsKept: nat, blobsDropped: nat, threw: bool)
      requires Inv() && EachOnce(order, Small(index, keep, smallPackThreshold))
      requires if packBuffer == [] then !Reuses(SizesOf(codec, disk, index, keep, order), flushEvery, order, nextPackId)
        else forall p :: p in order ==> p < nextPackId
      modifies this
      ensures Inv() && (!threw && old(Valid()) ==> Valid()) && (old(Trusted()) ==> Trusted())
      ensures threw ==> MayThrow(codec, Pass(true, old(disk), old(index), keep, iset{}, old(nextPackId)),
        Small(old(index), keep, smallPackThreshold) + LargeMixed(old(index), keep, smallPackThreshold))
      ensures OnlySafe(codec, old(seen), seen, Promised(codec, old(disk), old(index), keep))
      ensures Safe(codec, disk, Promised(codec, old(disk), old(index), keep))
      ensures packsBefore == |PackIds(old(index))| && (!threw ==> packsAfter == |PackIds(index)|)
      ensures
        var retired, merging, mixed := WhollyDead(old(index), keep),
          Present(old(disk), Small(old(index), keep, smallPackThreshold)), LargeMixed(old(index), keep, smallPackThreshold);
        var survivors := Survivors(codec, old(disk), old(index), keep, merging);
        !threw && old(packBuffer) == [] && (forall p :: p in mixed ==> p < old(nextPackId)) ==>
        && Fated(codec, old(disk), old(index), index, keep, retired, merging + mixed, old(nextPackId))
        && packsAfter <= packsBefore
        && blobsKept == |survivors| + |Of(old(index), mixed) * keep|
        && blobsKept + blobsDropped == |Of(old(index), retired)| + |Of(old(index), merging)| + |Of(old(index), mixed)|
        && (flushEvery > 0 ==> |PacksOf(index, survivors)| <= |survivors| / flushEvery + 1)
        && forall p: nat :: p < old(nextPackId) ==>
             Consolidated(codec, old(disk), old(index), keep, smallPackThreshold, disk, index, p, old(nextPackId))
    {
      ghost var promised := Promised(codec, disk, index, keep);
      var toCompact := LargeMixed(index, keep, smallPackThreshold);
      var pass := Pass(packBuffer == [], disk, index, keep, promised, nextPackId);
      PassStarts(codec, pass, index);
      packsBefore, packsAfter := |PackIds(index)|, 0;
      var toRetire := WhollyDead(index, keep);
      var retiredBlobs := CountMembers(index, toRetire);
      var mixedBlobs := CountMembers(index, toCompact);
      var live := CountLive(index, keep, toCompact);
      ghost var moved;
      blobsKept, blobsDropped, threw, moved := RunConsolidation(pass, toRetire, order, toCompact, flushEvery);
      if !threw && pass.quiet && forall p :: p in toCompact ==> p < pass.next {
        forall p: nat | p < pass.next
          ensures Consolidated(codec, pass.disk, pass.index, keep, smallPackThreshold, disk, index, p, pass.next)
        {
          ConsolidationMeans(codec, pass, disk, index, nextPackId, smallPackThreshold, p);
        }
      }
      blobsKept, blobsDropped := blobsKept + live, blobsDropped + retiredBlobs + (mixedBlobs - live);
      packsAfter := |PackIds(index)|;
    }

    /** The three phases, and the index rewrite that ends them; `kept` and `dropped` count the merge. */
    method RunConsolidation(pass: Pass, toRetire: set<nat>, order: seq<nat>, toCompact: set<nat>, flushEvery: nat)
      returns (kept: nat, dropped: nat, threw: bool, ghost moved: set<nat>)
      requires Inv() && index == pass.index && nextPackId == pass.next && pass.quiet == (packBuffer == [])
      requires Passing(codec, pass, disk, index, nextPackId, {}, {})
      requires pass.promised == Promised(codec, pass.disk, pass.index, pass.keep)
      requires forall p: nat :: DeadIn(pass, toRetire, p)
      requires EachOnce(order, Visited(order, |order|)) && Unshared(codec, pass, order, flushEvery)
      requires Visited(order, |order|) !! toRetire && toCompact !! toRetire && toCompact !! Visited(order, |order|)
      modifies this
      ensures Inv() && (!threw && old(Valid()) ==> Valid()) && (old(Trusted()) ==> Trusted())
      ensures OnlySafe(codec, old(seen), seen, pass.promised) && Safe(codec, disk, pass.promised)
      ensures threw ==> MayThrow(codec, pass, Visited(order, |order|) + toCompact)
      ensures !threw && pass.quiet && (forall p :: p in toCompact ==> p < pass.next) ==>
        && Passing(codec, pass, disk, index, nextPackId, toRetire, moved + toCompact)
        && moved == Present(pass.disk, Visited(order, |order|))
        && kept == |Survivors(codec, pass.disk, pass.index, pass.keep, moved)|
        && kept + dropped == |Of(pass.index, moved)|
        && (flushEvery > 0 ==> |PacksOf(index, Survivors(codec, pass.disk, pass.index, pass.keep, moved))| <= kept / flushEvery + 1)
    {
      RetireDead(toRetire, pass);
      WithoutIs(pass.index, index, toRetire);
      assert toRetire == {} ==> index == pass.index;
      ghost var now := seen;
      kept, dropped, threw, moved := StreamMerge(order, flushEvery, pass, toRetire);
      OnlySafeThen(codec, old(seen), now, seen, pass.promised);
      if threw {
        return;
      }
      now := seen;
      var quiet := pass.quiet && forall p :: p in toCompact ==> p < pass.next;
      ghost var done;
      threw, done := CompactAndFinish(pass.(quiet := quiet), toRetire, toRetire != {} || order != [], moved, toCompact);
      OnlySafeThen(codec, old(seen), now, seen, pass.promised);
    }

    /** The last phase of a consolidation, and the rewrite of the index. */
    method CompactAndFinish(
      pass: Pass, ghost retired: set<nat>, touched: bool, ghost moved: set<nat>, toCompact: set<nat>)
      returns (threw: bool, ghost done: set<nat>)
      requires Inv() && Passing(codec, pass, disk, index, nextPackId, retired, moved) && moved !! retired
      requires packBuffer == [] || (!pass.quiet && forall p :: p in toCompact ==> p < nextPackId)
      requires NotYetTaken(pass, retired, moved, toCompact)
      requires pass.promised == Promised(codec, pass.disk, pass.index, pass.keep)
      modifies this
      ensures Inv() && (old(Trusted()) ==> Trusted())
      ensures !threw && (touched || old(index == LoadIndex(disk.index))) && old(pending == HashesOf(packBuffer)) ==> Valid()
      ensures OnlySafe(codec, old(seen), seen, pass.promised) && Safe(codec, disk, pass.promised)
      ensures threw ==> MayThrow(codec, pass, toCompact)
      ensures done <= toCompact && (!threw ==> done == toCompact)
      ensures Passing(codec, pass, disk, index, nextPackId, retired, moved + done)
      ensures !threw && pass.quiet ==>
        |PacksOf(index, Survivors(codec, pass.disk, pass.index, pass.keep, moved))| <= old(nextPackId) - pass.next
    {
      ghost var d, m, n := disk, index, nextPackId;
      threw, done := CompactPacks(toCompact, pass, retired, moved);
      if !threw {
        if pass.quiet {
          MergedInto(codec, pass, d, m, n, retired, moved, index, toCompact);
        }
        ghost var now := seen;
        FinishPass(pass, retired, moved + toCompact, touched || toCompact != {});
        OnlySafeThen(codec, old(seen), now, seen, pass.promised);
      }
    }
  }
}
