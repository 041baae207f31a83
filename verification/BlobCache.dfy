/** The bounded in-memory blob cache: insertion order, byte count, eviction. */
module BlobCache {
  import opened Base

  /** Keys in least recently used order, their contents, and the byte count kept beside them. */
  ghost predicate Shape(order: seq<string>, blobs: map<string, Bytes>, bytes: nat) {
    && Distinct(order)
    && (forall h :: InBoth(order, blobs, h))
    && bytes == SumBytes(order, blobs)
  }

  predicate InBoth(order: seq<string>, blobs: map<string, Bytes>, h: string) {
    h in order <==> h in blobs
  }

  ghost predicate Distinct(order: seq<string>) {
    order != [] ==> order[0] !in order[1..] && Distinct(order[1..])
  }

  function SizeOf(blobs: map<string, Bytes>, h: string): nat {
    if h in blobs then |blobs[h]| else 0
  }

  function SumBytes(order: seq<string>, blobs: map<string, Bytes>): nat {
    if order == [] then 0 else SizeOf(blobs, order[0]) + SumBytes(order[1..], blobs)
  }

  /** `order` without `h`, if it is there. */
  function Without(order: seq<string>, h: string): seq<string> {
    if order == [] then []
    else if order[0] == h then order[1..]
    else [order[0]] + Without(order[1..], h)
  }

  /** The pending keys of an order, in order. */
  function Only(order: seq<string>, pending: set<string>): seq<string> {
    if order == [] then []
    else (if order[0] in pending then [order[0]] else []) + Only(order[1..], pending)
  }

  lemma {:induction false} SumCongruent(order: seq<string>, xs: map<string, Bytes>, ys: map<string, Bytes>)
    requires forall h :: h in order ==> SizeOf(xs, h) == SizeOf(ys, h)
    ensures SumBytes(order, xs) == SumBytes(order, ys)
  {
    if order != [] {
      assert order[0] in order && forall h :: h in order[1..] ==> h in order;
      SumCongruent(order[1..], xs, ys);
    }
  }

  lemma {:induction false} SumAppend(order: seq<string>, more: seq<string>, blobs: map<string, Bytes>)
    ensures SumBytes(order + more, blobs) == SumBytes(order, blobs) + SumBytes(more, blobs)
  {
    if order == [] {
      assert order + more == more;
    } else {
      assert (order + more)[1..] == order[1..] + more;
      SumAppend(order[1..], more, blobs);
    }
  }

  lemma {:induction false} WithoutMembers(order: seq<string>, h: string)
    requires Distinct(order)
    ensures forall x :: x in Without(order, h) <==> x in order && x != h
    ensures Distinct(Without(order, h))
    ensures forall blobs :: SumBytes(Without(order, h), blobs) == SumBytes(order, blobs) - (if h in order then SizeOf(blobs, h) else 0)
  {
    if order != [] {
      var rest := order[1..];
      assert order == [order[0]] + rest;
      WithoutMembers(rest, h);
      if order[0] != h {
        var w := Without(rest, h);
        assert ([order[0]] + w)[1..] == w;
        assert order[0] !in rest;
      }
    }
  }

  /** Removing a key takes its bytes off the count. */
  lemma DeleteKeepsShape(order: seq<string>, blobs: map<string, Bytes>, bytes: nat, h: string)
    requires Shape(order, blobs, bytes) && h in blobs
    ensures bytes >= |blobs[h]| && Shape(Without(order, h), blobs - {h}, bytes - |blobs[h]|)
  {
    assert InBoth(order, blobs, h);
    WithoutMembers(order, h);
    forall x ensures InBoth(Without(order, h), blobs - {h}, x) {
      assert InBoth(order, blobs, x);
    }
    SumCongruent(Without(order, h), blobs, blobs - {h});
  }

  /** A new key at the recently used end adds its bytes. */
  lemma InsertKeepsShape(order: seq<string>, blobs: map<string, Bytes>, bytes: nat, h: string, content: Bytes)
    requires Shape(order, blobs, bytes) && h !in blobs
    ensures Shape(order + [h], blobs[h := content], bytes + |content|)
  {
    var blobs' := blobs[h := content];
    assert InBoth(order, blobs, h);
    DistinctAppend(order, h);
    forall x ensures InBoth(order + [h], blobs', x) {
      assert InBoth(order, blobs, x);
    }
    SumAppend(order, [h], blobs');
    assert [h][1..] == [];
    SumCongruent(order, blobs, blobs');
  }

  /** Evicting the key after an already scanned prefix. */
  lemma EvictKeepsShape(before: seq<string>, h: string, rest: seq<string>, blobs: map<string, Bytes>, bytes: nat)
    requires Shape(before + [h] + rest, blobs, bytes)
    ensures h in blobs && bytes >= |blobs[h]| && Shape(before + rest, blobs - {h}, bytes - |blobs[h]|)
  {
    var order := before + [h] + rest;
    assert order[|before|] == h && InBoth(order, blobs, h);
    DeleteKeepsShape(order, blobs, bytes, h);
    WithoutMiddle(before, h, rest);
  }

  lemma {:induction false} WithoutMiddle(before: seq<string>, h: string, rest: seq<string>)
    requires Distinct(before + [h] + rest)
    ensures Without(before + [h] + rest, h) == before + rest
  {
    var order := before + [h] + rest;
    if before == [] {
      assert order[1..] == rest && before + rest == rest;
    } else {
      var tail := before[1..] + [h] + rest;
      assert order[1..] == tail && order[0] == before[0];
      assert tail[|before| - 1] == h;
      WithoutMiddle(before[1..], h, rest);
      assert before + rest == [before[0]] + (before[1..] + rest);
    }
  }

  lemma {:induction false} DistinctAppend(order: seq<string>, h: string)
    requires Distinct(order) && h !in order
    ensures Distinct(order + [h])
  {
    if order == [] {
      assert [h][1..] == [];
    } else {
      assert (order + [h])[1..] == order[1..] + [h];
      DistinctAppend(order[1..], h);
    }
  }

  lemma {:induction false} OnlySnoc(order: seq<string>, k: nat, pending: set<string>)
    requires k < |order|
    ensures Only(order[..k + 1], pending) == Only(order[..k], pending) + (if order[k] in pending then [order[k]] else [])
  {
    if k == 0 {
      assert order[..1][1..] == [];
    } else {
      assert order[..k + 1][1..] == order[1..][..k] && order[..k][1..] == order[1..][..k - 1];
      OnlySnoc(order[1..], k - 1, pending);
    }
  }

  predicate SubAt(xs: map<string, Bytes>, ys: map<string, Bytes>, h: string) {
    h in xs ==> h in ys && ys[h] == xs[h]
  }

  ghost predicate SubCache(xs: map<string, Bytes>, ys: map<string, Bytes>) {
    forall h :: SubAt(xs, ys, h)
  }

  /** The pending blobs are all still there. */
  ghost predicate KeepsPending(xs: map<string, Bytes>, ys: map<string, Bytes>, pending: set<string>) {
    forall h :: h in pending && h in xs ==> h in ys
  }

  /** Of the first `n` keys only the pending ones stayed; the rest of the order is untouched. */
  ghost predicate Evicted(
    order0: seq<string>, blobs0: map<string, Bytes>, order: seq<string>, blobs: map<string, Bytes>,
    pending: set<string>, n: nat)
  {
    && n <= |order0|
    && order == OrderAfter(order0, pending, n)
    && SubCache(blobs, blobs0)
    && KeepsPending(blobs0, blobs, pending)
  }

  datatype Cache = Cache(order: seq<string>, blobs: map<string, Bytes>, bytes: nat)

  /** The eviction loop after `i` keys. */
  ghost predicate Evicting(c0: Cache, c: Cache, pending: set<string>, i: nat) {
    match c
    case Cache(order, blobs, bytes) => Shape(order, blobs, bytes) && Evicted(c0.order, c0.blobs, order, blobs, pending, i)
  }

  function EvictKey(c: Cache, h: string, pending: set<string>): Cache {
    if h in pending then c
    else
      var size := SizeOf(c.blobs, h);
      Cache(Without(c.order, h), c.blobs - {h}, if c.bytes >= size then c.bytes - size else 0)
  }

  /** The order left after `i` keys: the pending ones among them, then the rest. */
  function OrderAfter(order: seq<string>, pending: set<string>, i: nat): seq<string>
    requires i <= |order|
  {
    Only(order[..i], pending) + order[i..]
  }

  lemma OrderStep(order: seq<string>, pending: set<string>, i: nat)
    requires i < |order|
    ensures OrderAfter(order, pending, i) == Only(order[..i], pending) + [order[i]] + order[i + 1..]
    ensures OrderAfter(order, pending, i + 1) ==
      if order[i] in pending then OrderAfter(order, pending, i) else Only(order[..i], pending) + order[i + 1..]
  {
    var kept, h, rest := Only(order[..i], pending), order[i], order[i + 1..];
    OnlySnoc(order, i, pending);
    assert order[i..] == [h] + rest;
    ConcatAssociative(kept, [h], rest);
    assert kept + [] == kept;
  }

  lemma EvictStep(c0: Cache, c: Cache, pending: set<string>, i: nat)
    requires i < |c0.order| && Evicting(c0, c, pending, i)
    ensures Evicting(c0, EvictKey(c, c0.order[i], pending), pending, i + 1)
  {
    OrderStep(c0.order, pending, i);
    if c0.order[i] !in pending {
      forall h ensures SubAt(c.blobs - {c0.order[i]}, c0.blobs, h) {
        assert SubAt(c.blobs, c0.blobs, h);
      }
      EvictedKey(Only(c0.order[..i], pending), c0.order[i], c0.order[i + 1..], c);
    }
  }

  lemma EvictedKey(kept: seq<string>, h: string, rest: seq<string>, c: Cache)
    requires Shape(c.order, c.blobs, c.bytes) && c.order == kept + [h] + rest
    ensures var next := EvictKey(c, h, {});
      Shape(next.order, next.blobs, next.bytes) && next.order == kept + rest && next.blobs == c.blobs - {h}
  {
    EvictKeepsShape(kept, h, rest, c.blobs, c.bytes);
    WithoutMiddle(kept, h, rest);
  }

  lemma {:induction false} OnlyPending(order: seq<string>, pending: set<string>)
    ensures forall h :: h in Only(order, pending) ==> h in pending
  {
    if order != [] {
      OnlyPending(order[1..], pending);
    }
  }

  lemma EvictedAll(c0: Cache, c: Cache, pending: set<string>, i: nat)
    requires i == |c0.order| && Evicting(c0, c, pending, i)
    ensures forall h :: h in c.order ==> h in pending
  {
    assert c0.order[..|c0.order|] == c0.order && c.order == Only(c0.order, pending);
    OnlyPending(c0.order, pending);
  }

  lemma EvictStart(c: Cache, pending: set<string>)
    requires Shape(c.order, c.blobs, c.bytes)
    ensures Evicting(c, c, pending, 0)
  {
    assert Only(c.order[..0], pending) + c.order[0..] == c.order;
  }

  lemma EvictedSize(c0: Cache, c: Cache, pending: set<string>, i: nat)
    requires i < |c0.order| && Evicting(c0, c, pending, i)
    ensures var h := c0.order[i];
      EvictKey(c, h, pending).bytes + (if h in pending then 0 else SizeOf(c0.blobs, h)) >= c.bytes
  {
    assert SubAt(c.blobs, c0.blobs, c0.order[i]);
  }

  /** Nothing is evicted once the budget holds: with the last blob that went it did not. */
  ghost predicate NoFurther(c0: Cache, c: Cache, pending: set<string>, n: nat, budget: nat) {
    0 < n <= |c0.order| ==>
      c.bytes + (if c0.order[n - 1] in pending then 0 else SizeOf(c0.blobs, c0.order[n - 1])) > budget
  }

  /** After `i` keys of a walk that has not gone further than the budget asked. */
  ghost predicate Walked(c0: Cache, c: Cache, pending: set<string>, i: nat, budget: nat) {
    match c0
    case Cache(order0, _, _) => i <= |order0| && Evicting(c0, c, pending, i) && NoFurther(c0, c, pending, i, budget)
  }

  lemma WalkRound(c0: Cache, c: Cache, pending: set<string>, i: nat, budget: nat)
    requires i < |c0.order| && Walked(c0, c, pending, i, budget) && c.bytes > budget
    ensures Walked(c0, EvictKey(c, c0.order[i], pending), pending, i + 1, budget)
  {
    EvictStep(c0, c, pending, i);
    EvictedSize(c0, c, pending, i);
  }

  lemma WalkEnds(c0: Cache, c: Cache, pending: set<string>, i: nat, budget: nat)
    requires Walked(c0, c, pending, i, budget) && (i >= |c0.order| || c.bytes <= budget)
    ensures Evicting(c0, c, pending, i) && NoFurther(c0, c, pending, i, budget)
    ensures c.bytes <= budget || forall h :: h in c.order ==> h in pending
  {
    if c.bytes > budget {
      EvictedAll(c0, c, pending, i);
    }
  }

  /** The eviction loop: from the least recently used end, skipping pending blobs. */
  method Evict(c0: Cache, budget: nat, pending: set<string>) returns (c: Cache, ghost n: nat)
    requires Shape(c0.order, c0.blobs, c0.bytes)
    ensures Evicting(c0, c, pending, n)
    ensures c.bytes <= budget || forall h :: h in c.order ==> h in pending
    ensures NoFurther(c0, c, pending, n, budget)
  {
    c := c0;
    var i: nat := 0;
    EvictStart(c0, pending);
    while i < |c0.order| && c.bytes > budget
      invariant Walked(c0, c, pending, i, budget)
    {
      WalkRound(c0, c, pending, i, budget);
      c := EvictKey(c, c0.order[i], pending);
      i := i + 1;
    }
    WalkEnds(c0, c, pending, i, budget);
    n := i;
  }
}
