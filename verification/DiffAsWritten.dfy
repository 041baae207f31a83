/**
 * The pile lookup of the patience sort as the source spells it, `piles[pileTop[mid]]`: the index of a
 * pair is used as the index of a pile. When the code throws, and that what it returns otherwise is sound.
 */
module DiffAsWritten {
  import opened Base
  import opened Diff
  import ThreeWay
  import Text

  // ---------------------------------------------------------------- the code

  /** The binary search; `None` is the error thrown by reading past `piles`. */
  function WrittenSearch(piles: seq<Match>, pileTop: seq<nat>, bVal: nat, lo: nat, hi: nat): (found: Option<nat>)
    requires lo <= hi <= |pileTop|
    ensures found.Some? ==> lo <= found.value <= hi
    decreases hi - lo
  {
    if lo == hi then Some(lo)
    else
      var mid := (lo + hi) / 2;
      if pileTop[mid] >= |piles| then None
      else if piles[pileTop[mid]].b < bVal then WrittenSearch(piles, pileTop, bVal, mid + 1, hi)
      else WrittenSearch(piles, pileTop, bVal, lo, mid)
  }

  datatype Deal = Deal(piles: seq<Match>, pileTop: seq<nat>, prev: seq<int>)

  /** Predecessor links and pile tops point back. */
  predicate Backward(d: Deal) {
    && (forall k :: 0 <= k < |d.prev| ==> -1 <= d.prev[k] < k)
    && (forall p :: 0 <= p < |d.pileTop| ==> d.pileTop[p] < |d.prev|)
  }

  /** The dealing loop over the first `i` pairs. */
  function WrittenDeal(pairs: seq<Match>, i: nat): (r: Option<Deal>)
    requires i <= |pairs|
    ensures r.Some? ==> |r.value.piles| == |r.value.pileTop| && |r.value.prev| == i && Backward(r.value)
    ensures r.Some? && i > 0 ==> |r.value.piles| > 0
  {
    if i == 0 then Some(Deal([], [], []))
    else
      var before := WrittenDeal(pairs, i - 1);
      if before.None? then None else DealNext(before.value, pairs[i - 1])
  }

  function DealNext(d: Deal, m: Match): (r: Option<Deal>)
    requires |d.piles| == |d.pileTop| && Backward(d)
    ensures r.Some? ==> |r.value.piles| == |r.value.pileTop| > 0 && |r.value.prev| == |d.prev| + 1 && Backward(r.value)
  {
    var lo := WrittenSearch(d.piles, d.pileTop, m.b, 0, |d.pileTop|);
    if lo.None? then None
    else
      Some(Deal(Put(d.piles, lo.value, m), Put(d.pileTop, lo.value, |d.prev|),
        d.prev + [if lo.value > 0 then d.pileTop[lo.value - 1] else -1]))
  }

  /** The reconstruction loop: the links from `k` back to a pair without one. */
  function WrittenChain(prev: seq<int>, k: int): seq<nat>
    requires forall j :: 0 <= j < |prev| ==> -1 <= prev[j] < j
    requires -1 <= k < |prev|
    decreases k + 1
  {
    if k == -1 then [] else WrittenChain(prev, prev[k]) + [k]
  }

  /** `longestIncreasingSubsequence`, by the positions it picks; `None` if it throws. */
  function WrittenPicks(pairs: seq<Match>): Option<seq<nat>> {
    if pairs == [] then Some([])
    else
      var deal := WrittenDeal(pairs, |pairs|);
      if deal.None? then None
      else
        var Deal(piles, pileTop, prev) := deal.value;
        Some(WrittenChain(prev, pileTop[|piles| - 1]))
  }

  // ------------------------------------------------------------- what it returns

  /** A search that ends at `q` has read a pile below its value at `q - 1` and one that is not at `q`. */
  lemma {:induction false} SearchReadsNeighbours(
    piles: seq<Match>, pileTop: seq<nat>, bVal: nat, lo: nat, hi: nat, q: nat)
    requires lo <= hi <= |pileTop| && WrittenSearch(piles, pileTop, bVal, lo, hi) == Some(q)
    ensures q > lo ==> pileTop[q - 1] < |piles| && piles[pileTop[q - 1]].b < bVal
    ensures q < hi ==> pileTop[q] < |piles| && bVal <= piles[pileTop[q]].b
    decreases hi - lo
  {
    if lo < hi {
      var mid := (lo + hi) / 2;
      if piles[pileTop[mid]].b < bVal {
        SearchReadsNeighbours(piles, pileTop, bVal, mid + 1, hi, q);
      } else {
        SearchReadsNeighbours(piles, pileTop, bVal, lo, mid, q);
      }
    }
  }

  /** `t` was put on pile `p` and linked to pair `p - 1`, which is smaller. */
  predicate PutAfter(pairs: seq<Match>, prev: seq<int>, p: nat, t: nat) {
    t < |prev| <= |pairs| && prev[t] == p - 1 && (p > 0 ==> p <= t && pairs[p - 1].b < pairs[t].b)
  }

  /** Pile `p` still holds pair `p`, or its top is too large to be read. */
  predicate FirstOrLost(pairs: seq<Match>, d: Deal, n: nat, p: nat)
    requires p < |d.pileTop| == |d.piles|
  {
    || (d.pileTop[p] == p < |pairs| && d.piles[p] == pairs[p])
    || (d.pileTop[p] >= n && PutAfter(pairs, d.prev, p, d.pileTop[p]))
  }

  /**
   * The shape of every deal that did not throw: the first `n` pairs made one pile each; since then
   * piles were topped again, and at most one more pile was opened, whose top cannot be read.
   */
  predicate Shaped(pairs: seq<Match>, d: Deal, n: nat) {
    && 0 < n <= |d.prev| <= |pairs| && |d.piles| == |d.pileTop|
    && (forall k, l :: 0 <= k < l < n ==> pairs[k].b < pairs[l].b)
    && (forall k :: 0 <= k < n ==> d.prev[k] == k - 1)
    && (|d.piles| == n || (|d.piles| == n + 1 && d.pileTop[n] > n && PutAfter(pairs, d.prev, n, d.pileTop[n])))
    && (|d.piles| == n ==> forall p :: 0 <= p < n ==> FirstOrLost(pairs, d, n, p))
  }

  /** A pair put on pile `q` after reading the piles at `q - 1` and `q`. */
  predicate ReadsBeside(d: Deal, m: Match, q: nat) {
    && |d.pileTop| == |d.piles| && q <= |d.piles|
    && (q > 0 ==> d.pileTop[q - 1] < |d.piles| && d.piles[d.pileTop[q - 1]].b < m.b)
    && (q < |d.piles| ==> d.pileTop[q] < |d.piles|)
  }

  function PutOn(d: Deal, m: Match, q: nat): Deal
    requires ReadsBeside(d, m, q)
  {
    Deal(Put(d.piles, q, m), Put(d.pileTop, q, |d.prev|), d.prev + [if q > 0 then d.pileTop[q - 1] else -1])
  }

  lemma PutOnIsAfter(pairs: seq<Match>, d: Deal, n: nat, q: nat)
    requires Shaped(pairs, d, n) && |d.prev| < |pairs| && |d.piles| == n && ReadsBeside(d, pairs[|d.prev|], q)
    ensures PutAfter(pairs, PutOn(d, pairs[|d.prev|], q).prev, q, |d.prev|)
  {
    assert q > 0 ==> FirstOrLost(pairs, d, n, q - 1);
  }

  lemma ShapedOn(pairs: seq<Match>, d: Deal, n: nat, q: nat)
    requires Shaped(pairs, d, n) && |d.prev| < |pairs| && |d.piles| == n && ReadsBeside(d, pairs[|d.prev|], q)
    requires q == n ==> |d.prev| > n
    ensures Shaped(pairs, PutOn(d, pairs[|d.prev|], q), n)
  {
    var d' := PutOn(d, pairs[|d.prev|], q);
    PutOnIsAfter(pairs, d, n, q);
    if q < n {
      forall p | 0 <= p < n ensures FirstOrLost(pairs, d', n, p) {
        assert FirstOrLost(pairs, d, n, p);
      }
    }
  }

  lemma ShapedGrows(pairs: seq<Match>, d: Deal, n: nat)
    requires Shaped(pairs, d, n) && Backward(d) && |d.prev| == n < |pairs| && |d.piles| == n && ReadsBeside(d, pairs[n], n)
    ensures Shaped(pairs, PutOn(d, pairs[n], n), n + 1)
  {
    var d', next := PutOn(d, pairs[n], n), n + 1;
    PutOnIsAfter(pairs, d, n, n);
    forall p | 0 <= p < next ensures FirstOrLost(pairs, d', next, p) {
      assert p < n ==> FirstOrLost(pairs, d, n, p);
    }
  }

  lemma ShapedStep(pairs: seq<Match>, d: Deal, n: nat) returns (n': nat)
    requires Shaped(pairs, d, n) && Backward(d) && |d.prev| < |pairs| && DealNext(d, pairs[|d.prev|]).Some?
    ensures Shaped(pairs, DealNext(d, pairs[|d.prev|]).value, n')
  {
    var m := pairs[|d.prev|];
    var q := WrittenSearch(d.piles, d.pileTop, m.b, 0, |d.pileTop|).value;
    SearchReadsNeighbours(d.piles, d.pileTop, m.b, 0, |d.pileTop|, q);
    assert DealNext(d, m).value == PutOn(d, m, q);
    n' := n;
    if |d.piles| == n && (q < n || |d.prev| > n) {
      ShapedOn(pairs, d, n, q);
    } else if |d.piles| == n {
      ShapedGrows(pairs, d, n);
      n' := n + 1;
    }
  }

  lemma {:induction false} DealIsShaped(pairs: seq<Match>, i: nat) returns (n: nat)
    requires 0 < i <= |pairs| && WrittenDeal(pairs, i).Some?
    ensures Shaped(pairs, WrittenDeal(pairs, i).value, n)
  {
    if i == 1 {
      n := 1;
      assert WrittenDeal(pairs, 0) == Some(Deal([], [], []));
    } else {
      n := DealIsShaped(pairs, i - 1);
      n := ShapedStep(pairs, WrittenDeal(pairs, i - 1).value, n);
    }
  }

  function Indices(n: nat): seq<nat> {
    seq(n, k requires 0 <= k < n => k)
  }

  lemma {:induction false} ChainOfFirst(prev: seq<int>, n: nat)
    requires n <= |prev| && forall j :: 0 <= j < |prev| ==> -1 <= prev[j] < j
    requires forall k :: 0 <= k < n ==> prev[k] == k - 1
    ensures WrittenChain(prev, n - 1) == Indices(n)
  {
    if n > 0 {
      ChainOfFirst(prev, n - 1);
      assert Indices(n) == Indices(n - 1) + [n - 1];
    }
  }

  lemma ChainOfTop(pairs: seq<Match>, d: Deal, n: nat, p: nat)
    requires Shaped(pairs, d, n) && Backward(d) && p <= n && p < |d.pileTop| && PutAfter(pairs, d.prev, p, d.pileTop[p])
    ensures IncreasingPick(WrittenChain(d.prev, d.pileTop[p]), pairs) && |WrittenChain(d.prev, d.pileTop[p])| == p + 1
  {
    ChainOfFirst(d.prev, p);
    assert WrittenChain(d.prev, d.pileTop[p]) == Indices(p) + [d.pileTop[p]];
  }

  /** The chain from the last pile, in whichever of the three shapes it has. */
  lemma ChainOfLast(pairs: seq<Match>, d: Deal, n: nat)
    requires Shaped(pairs, d, n) && Backward(d)
    ensures var chain := WrittenChain(d.prev, d.pileTop[|d.piles| - 1]); chain != [] && IncreasingPick(chain, pairs)
  {
    var last: nat := |d.piles| - 1;
    assert last < n ==> FirstOrLost(pairs, d, n, last);
    if d.pileTop[last] == last {
      ChainOfFirst(d.prev, n);
    } else {
      ChainOfTop(pairs, d, n, last);
    }
  }

  /**
   * Whenever the code as written does not throw, what it returns is strictly increasing on both
   * sides, and is not empty if there is a shared unique line: the anchors are sound.
   */
  lemma WrittenPicksIncrease(pairs: seq<Match>)
    requires WrittenPicks(pairs).Some?
    ensures IncreasingPick(WrittenPicks(pairs).value, pairs)
    ensures pairs != [] ==> WrittenPicks(pairs).value != []
  {
    if pairs != [] {
      var n := DealIsShaped(pairs, |pairs|);
      ChainOfLast(pairs, WrittenDeal(pairs, |pairs|).value, n);
    }
  }

  /** So the anchors as written, where there are any, are what the recursion needs of them. */
  lemma WrittenAnchorsAreSound(
    a: seq<string>, aLo: nat, aHi: nat, b: seq<string>, bLo: nat, bHi: nat, pairs: seq<Match>, anchors: seq<Match>)
    requires aLo <= aHi <= |a| && bLo <= bHi <= |b|
    requires SortedByA(pairs) && forall p :: p in pairs ==> UniqueMatch(p, a, aLo, aHi, b, bLo, bHi)
    requires WrittenPicks(pairs).Some? && Picked(WrittenPicks(pairs).value, pairs, anchors)
    ensures UniqueChain(anchors, a, aLo, aHi, b, bLo, bHi) && (pairs != [] ==> anchors != [])
  {
    WrittenPicksIncrease(pairs);
    PickedAnchors(a, aLo, aHi, b, bLo, bHi, pairs, WrittenPicks(pairs).value, anchors);
  }

  // ------------------------------------------------------------------ when it throws

  /** The search for pile `q` reads a pile whose top is `n` or more. */
  predicate Hits(pileTop: seq<nat>, n: nat, q: nat, lo: nat, hi: nat)
    requires lo <= q <= hi <= |pileTop|
    decreases hi - lo
  {
    lo < hi &&
    var mid := (lo + hi) / 2;
    pileTop[mid] >= n || if mid < q then Hits(pileTop, n, q, mid + 1, hi) else Hits(pileTop, n, q, lo, mid)
  }

  /** Pile tops are the piles' own indices, or too large to be read. */
  predicate OwnOrLost(pileTop: seq<nat>, n: nat) {
    forall p :: 0 <= p < |pileTop| ==> pileTop[p] == p || pileTop[p] >= n
  }

  /** With such tops the search throws exactly when its path hits one, and finds the intended pile otherwise. */
  lemma {:induction false} SearchThrowsIff(piles: seq<Match>, pileTop: seq<nat>, bVal: nat, q: nat, lo: nat, hi: nat)
    requires |pileTop| == |piles| && OwnOrLost(pileTop, |piles|) && Fits(piles, q, bVal) && lo <= q <= hi <= |piles|
    ensures WrittenSearch(piles, pileTop, bVal, lo, hi) == if Hits(pileTop, |piles|, q, lo, hi) then None else Some(q)
    decreases hi - lo
  {
    if lo < hi {
      var mid := (lo + hi) / 2;
      if mid < q {
        SearchThrowsIff(piles, pileTop, bVal, q, mid + 1, hi);
      } else {
        SearchThrowsIff(piles, pileTop, bVal, q, lo, mid);
      }
    }
  }

  /** The search for a pile reads that pile and the one before it. */
  lemma {:induction false} HitsNeighbour(pileTop: seq<nat>, n: nat, p: nat, q: nat, lo: nat, hi: nat)
    requires lo <= p < hi <= |pileTop| && pileTop[p] >= n && lo <= q <= hi && (q == p || q == p + 1)
    ensures Hits(pileTop, n, q, lo, hi)
    decreases hi - lo
  {
    var mid := (lo + hi) / 2;
    if pileTop[mid] < n {
      if mid < q {
        HitsNeighbour(pileTop, n, p, q, mid + 1, hi);
      } else {
        HitsNeighbour(pileTop, n, p, q, lo, mid);
      }
    }
  }

  lemma {:induction false} NeverHits(pileTop: seq<nat>, n: nat, q: nat, lo: nat, hi: nat)
    requires lo <= q <= hi <= |pileTop| && forall p :: 0 <= p < |pileTop| ==> pileTop[p] < n
    ensures !Hits(pileTop, n, q, lo, hi)
    decreases hi - lo
  {
    if lo < hi {
      var mid := (lo + hi) / 2;
      if mid < q {
        NeverHits(pileTop, n, q, mid + 1, hi);
      } else {
        NeverHits(pileTop, n, q, lo, mid);
      }
    }
  }

  /** The deal of the first `n` pairs when they keep their order: one pile each. */
  function InOrderDeal(pairs: seq<Match>, n: nat): Deal
    requires n <= |pairs|
  {
    Deal(pairs[..n], Indices(n), seq(n, k requires 0 <= k < n => k - 1))
  }

  predicate KeepOrder(pairs: seq<Match>, n: nat)
    requires n <= |pairs|
  {
    forall k, l :: 0 <= k < l < n ==> pairs[k].b < pairs[l].b
  }

  lemma {:induction false} InOrderDeals(pairs: seq<Match>, n: nat)
    requires n <= |pairs| && KeepOrder(pairs, n)
    ensures WrittenDeal(pairs, n) == Some(InOrderDeal(pairs, n))
  {
    if n > 0 {
      var m: nat := n - 1;
      InOrderDeals(pairs, m);
      InOrderNext(pairs, m);
      DealUnfolds(pairs, m, InOrderDeal(pairs, m));
    } else {
      NothingDealt(pairs);
    }
  }

  lemma DealUnfolds(pairs: seq<Match>, m: nat, d: Deal)
    requires m < |pairs| && WrittenDeal(pairs, m) == Some(d)
    ensures WrittenDeal(pairs, m + 1) == DealNext(d, pairs[m])
  {
  }

  lemma NothingDealt(pairs: seq<Match>)
    ensures WrittenDeal(pairs, 0) == Some(InOrderDeal(pairs, 0))
  {
    assert InOrderDeal(pairs, 0) == Deal([], [], []);
  }

  lemma InOrderNext(pairs: seq<Match>, m: nat)
    requires m < |pairs| && KeepOrder(pairs, m + 1)
    ensures DealNext(InOrderDeal(pairs, m), pairs[m]) == Some(InOrderDeal(pairs, m + 1))
  {
    var d := InOrderDeal(pairs, m);
    SearchThrowsIff(d.piles, d.pileTop, pairs[m].b, m, 0, m);
    NeverHits(d.pileTop, m, m, 0, m);
    assert pairs[..m] + [pairs[m]] == pairs[..m + 1] && Indices(m) + [m] == Indices(m + 1);
    assert d.prev + [m - 1] == InOrderDeal(pairs, m + 1).prev;
  }

  /** When the shared unique lines keep their order, the code as written returns them all. */
  lemma WrittenKeepsOrder(pairs: seq<Match>)
    requires KeepOrder(pairs, |pairs|)
    ensures WrittenPicks(pairs) == Some(Indices(|pairs|))
  {
    if pairs == [] {
      assert Indices(0) == [];
    } else {
      InOrderDeals(pairs, |pairs|);
      ChainOfFirst(InOrderDeal(pairs, |pairs|).prev, |pairs|);
    }
  }

  /** Once the deal has thrown it stays thrown. */
  lemma {:induction false} ThrownStays(pairs: seq<Match>, i: nat, j: nat)
    requires i <= j <= |pairs| && WrittenDeal(pairs, i).None?
    ensures WrittenDeal(pairs, j).None?
    decreases j
  {
    if i < j {
      ThrownStays(pairs, i, j - 1);
    }
  }

  /** The first pair out of order, pair `n`, tops pile `p` again, and that top cannot be read. */
  lemma FirstReorder(pairs: seq<Match>, n: nat, p: nat)
    requires n < |pairs| && KeepOrder(pairs, n) && p < n && Fits(pairs[..n], p, pairs[n].b)
    ensures var d := WrittenDeal(pairs, n + 1);
      d.Some? && d.value.piles == pairs[..n][p := pairs[n]] && d.value.pileTop == Indices(n)[p := n]
  {
    InOrderDeals(pairs, n);
    SearchThrowsIff(pairs[..n], Indices(n), pairs[n].b, p, 0, n);
    NeverHits(Indices(n), n, p, 0, n);
  }

  /**
   * The first pair out of order tops pile `p` again. The code as written throws on the pair after it,
   * whose pile is `q`, exactly when the search for `q` reads pile `p`; it does whenever `q` is `p` or
   * the pile after it. Once it has thrown, the whole sort has.
   */
  lemma WrittenThrowsAfterReorder(pairs: seq<Match>, n: nat, p: nat, q: nat)
    requires n + 2 <= |pairs| && KeepOrder(pairs, n) && p < n && Fits(pairs[..n], p, pairs[n].b)
    requires Fits(pairs[..n][p := pairs[n]], q, pairs[n + 1].b)
    ensures WrittenDeal(pairs, n + 2).None? <==> Hits(Indices(n)[p := n], n, q, 0, n)
    ensures q == p || q == p + 1 ==> WrittenDeal(pairs, n + 2).None?
    ensures WrittenDeal(pairs, n + 2).None? ==> WrittenPicks(pairs).None?
  {
    FirstReorder(pairs, n, p);
    var pileTop := Indices(n)[p := n];
    SearchThrowsIff(pairs[..n][p := pairs[n]], pileTop, pairs[n + 1].b, q, 0, n);
    if q == p || q == p + 1 {
      HitsNeighbour(pileTop, n, p, q, 0, n);
    }
    if WrittenDeal(pairs, n + 2).None? {
      ThrownStays(pairs, n + 2, |pairs|);
    }
  }

  // ------------------------------------------------ until another pile is opened

  /** The first pile whose top is not below a value. */
  function PileOf(piles: seq<Match>, bVal: nat): (q: nat)
    ensures q <= |piles| && (forall p :: 0 <= p < q ==> piles[p].b < bVal) && (q < |piles| ==> bVal <= piles[q].b)
  {
    if piles == [] || bVal <= piles[0].b then 0 else 1 + PileOf(piles[1..], bVal)
  }

  /** The piles, and which of them were topped again. */
  datatype Again = Again(piles: seq<Match>, lost: set<nat>)

  /** From `n` piles of one pair each, the pairs `n` to `i` put on the piles they belong to, as long as they have one. */
  function PutAgain(pairs: seq<Match>, n: nat, i: nat): (r: Again)
    requires n <= i <= |pairs|
    ensures |r.piles| == n
    decreases i
  {
    if i == n then Again(pairs[..n], {})
    else
      var r := PutAgain(pairs, n, i - 1);
      var q := PileOf(r.piles, pairs[i - 1].b);
      if q < n then Again(r.piles[q := pairs[i - 1]], r.lost + {q}) else r
  }

  /** The pile the `k`-th pair belongs to. */
  function PileAt(pairs: seq<Match>, n: nat, k: nat): (q: nat)
    requires n <= k < |pairs|
    ensures q <= n
  {
    PileOf(PutAgain(pairs, n, k).piles, pairs[k].b)
  }

  /** The search of `[lo, hi)` for pile `q` probes a pile that was topped again. */
  predicate Probes(lost: set<nat>, q: nat, lo: nat, hi: nat)
    requires lo <= q <= hi
    decreases hi - lo
  {
    lo < hi &&
    var mid := (lo + hi) / 2;
    mid in lost || if mid < q then Probes(lost, q, mid + 1, hi) else Probes(lost, q, lo, mid)
  }

  predicate ProbesAt(pairs: seq<Match>, n: nat, k: nat)
    requires n <= k < |pairs|
  {
    Probes(PutAgain(pairs, n, k).lost, PileAt(pairs, n, k), 0, n)
  }

  /** A pile's top is its own first pair, or it was topped again and cannot be read. */
  predicate TopsOf(pileTop: seq<nat>, lost: set<nat>) {
    forall p :: 0 <= p < |pileTop| ==> if p in lost then pileTop[p] >= |pileTop| else pileTop[p] == p
  }

  lemma {:induction false} HitsIsProbes(pileTop: seq<nat>, lost: set<nat>, q: nat, lo: nat, hi: nat)
    requires TopsOf(pileTop, lost) && lo <= q <= hi <= |pileTop|
    ensures Hits(pileTop, |pileTop|, q, lo, hi) <==> Probes(lost, q, lo, hi)
    decreases hi - lo
  {
    if lo < hi {
      var mid := (lo + hi) / 2;
      if mid < q {
        HitsIsProbes(pileTop, lost, q, mid + 1, hi);
      } else {
        HitsIsProbes(pileTop, lost, q, lo, mid);
      }
    }
  }

  lemma {:induction false} StaysAscending(pairs: seq<Match>, n: nat, i: nat)
    requires n <= i <= |pairs| && KeepOrder(pairs, n)
    ensures Ascending(PutAgain(pairs, n, i).piles)
    decreases i
  {
    if i > n {
      StaysAscending(pairs, n, i - 1);
      var r := PutAgain(pairs, n, i - 1);
      AscendingStep(r.piles, PileOf(r.piles, pairs[i - 1].b), pairs[i - 1]);
    }
  }

  /** The piles `r` say what there is, and which tops can be read. */
  predicate Matches(d: Deal, r: Again) {
    |d.pileTop| == |d.piles| && d.piles == r.piles && TopsOf(d.pileTop, r.lost)
  }

  /** The deal after `i` pairs, none of which has thrown. */
  predicate Dealt(pairs: seq<Match>, n: nat, i: nat)
    requires n <= i <= |pairs|
  {
    WrittenDeal(pairs, i).Some? && Matches(WrittenDeal(pairs, i).value, PutAgain(pairs, n, i))
  }

  /** The search for the pile a pair belongs on, over those tops. */
  lemma SearchAgain(d: Deal, r: Again, bVal: nat)
    requires Matches(d, r) && Ascending(r.piles)
    ensures var q := PileOf(r.piles, bVal);
      WrittenSearch(d.piles, d.pileTop, bVal, 0, |d.piles|) == if Probes(r.lost, q, 0, |r.piles|) then None else Some(q)
  {
    var q := PileOf(r.piles, bVal);
    SearchThrowsIff(d.piles, d.pileTop, bVal, q, 0, |d.piles|);
    HitsIsProbes(d.pileTop, r.lost, q, 0, |d.piles|);
  }

  /** One pair more: it throws exactly if its search probes a pile topped again, and otherwise goes where it belongs. */
  lemma NextAgain(d: Deal, r: Again, m: Match)
    requires Matches(d, r) && Ascending(r.piles) && Backward(d) && |d.piles| <= |d.prev|
    ensures var q := PileOf(r.piles, m.b);
      && (DealNext(d, m).None? <==> Probes(r.lost, q, 0, |r.piles|))
      && (DealNext(d, m).Some? && q < |r.piles| ==> Matches(DealNext(d, m).value, Again(r.piles[q := m], r.lost + {q})))
  {
    SearchAgain(d, r, m.b);
  }

  lemma DealAgain(pairs: seq<Match>, n: nat, i: nat)
    requires 0 < n <= i < |pairs| && KeepOrder(pairs, n) && Dealt(pairs, n, i)
    ensures WrittenDeal(pairs, i + 1).None? <==> ProbesAt(pairs, n, i)
    ensures !ProbesAt(pairs, n, i) && PileAt(pairs, n, i) < n ==> Dealt(pairs, n, i + 1)
  {
    var d := WrittenDeal(pairs, i).value;
    StaysAscending(pairs, n, i);
    NextAgain(d, PutAgain(pairs, n, i), pairs[i]);
    DealUnfolds(pairs, i, d);
    AgainUnfolds(pairs, n, i);
  }

  lemma AgainUnfolds(pairs: seq<Match>, n: nat, i: nat)
    requires n <= i < |pairs|
    ensures var r, q := PutAgain(pairs, n, i), PileAt(pairs, n, i);
      q < n ==> PutAgain(pairs, n, i + 1) == Again(r.piles[q := pairs[i]], r.lost + {q})
  {
  }

  /** One of the pairs `n` to `i` probes a pile topped again before it. */
  predicate Probed(pairs: seq<Match>, n: nat, i: nat)
    requires n <= i <= |pairs|
  {
    exists k :: n <= k < i && ProbesAt(pairs, n, k)
  }

  lemma ProbedNext(pairs: seq<Match>, n: nat, i: nat)
    requires n <= i < |pairs|
    ensures Probed(pairs, n, i + 1) <==> Probed(pairs, n, i) || ProbesAt(pairs, n, i)
  {
  }

  /** The pairs `n` to `i` belong on piles that are there. */
  predicate NoneOpens(pairs: seq<Match>, n: nat, i: nat)
    requires n <= i <= |pairs|
  {
    forall k :: n <= k < i ==> PileAt(pairs, n, k) < n
  }

  /** What is known of the deal after `i` pairs. */
  predicate DealtOrThrown(pairs: seq<Match>, n: nat, i: nat)
    requires n <= i <= |pairs|
  {
    if Probed(pairs, n, i) then WrittenDeal(pairs, i).None? else Dealt(pairs, n, i)
  }

  lemma DealsOneMore(pairs: seq<Match>, n: nat, i: nat)
    requires 0 < n <= i < |pairs| && KeepOrder(pairs, n) && DealtOrThrown(pairs, n, i) && PileAt(pairs, n, i) < n
    ensures DealtOrThrown(pairs, n, i + 1)
  {
    ProbedNext(pairs, n, i);
    if Probed(pairs, n, i) {
      ThrownStays(pairs, i, i + 1);
    } else {
      DealAgain(pairs, n, i);
    }
  }

  lemma {:induction false} DealsAgain(pairs: seq<Match>, n: nat, i: nat)
    requires 0 < n <= i <= |pairs| && KeepOrder(pairs, n) && NoneOpens(pairs, n, i)
    ensures DealtOrThrown(pairs, n, i)
    decreases i
  {
    if i == n {
      InOrderDeals(pairs, n);
    } else {
      DealsAgain(pairs, n, i - 1);
      DealsOneMore(pairs, n, i - 1);
    }
  }

  lemma DealThrowsIff(pairs: seq<Match>, n: nat, i: nat)
    requires 0 < n <= i < |pairs| && KeepOrder(pairs, n) && NoneOpens(pairs, n, i)
    ensures WrittenDeal(pairs, i + 1).None? <==> Probed(pairs, n, i + 1)
  {
    DealsAgain(pairs, n, i);
    ProbedNext(pairs, n, i);
    if Probed(pairs, n, i) {
      ThrownStays(pairs, i, i + 1);
    } else {
      DealAgain(pairs, n, i);
    }
  }

  lemma PicksThrow(pairs: seq<Match>, i: nat)
    requires 0 < i <= |pairs|
    ensures WrittenDeal(pairs, i).None? ==> WrittenPicks(pairs).None?
    ensures WrittenPicks(pairs).None? ==> WrittenDeal(pairs, |pairs|).None?
  {
    if WrittenDeal(pairs, i).None? {
      ThrownStays(pairs, i, |pairs|);
    }
  }

  /**
   * After `n` pairs in order, and as long as every pair belongs on one of their `n` piles, the code as
   * written throws exactly if some pair's search probes a pile topped again before it; the first pair
   * that opens a pile is no exception.
   */
  lemma WrittenThrowsIff(pairs: seq<Match>, n: nat, i: nat)
    requires 0 < n <= i < |pairs| && KeepOrder(pairs, n) && NoneOpens(pairs, n, i)
    ensures WrittenDeal(pairs, i + 1).None? <==> Probed(pairs, n, i + 1)
    ensures Probed(pairs, n, i + 1) ==> WrittenPicks(pairs).None?
    ensures i + 1 == |pairs| ==> (WrittenPicks(pairs).None? <==> Probed(pairs, n, |pairs|))
  {
    DealThrowsIff(pairs, n, i);
    PicksThrow(pairs, i + 1);
  }

  /** Three shared lines with the first two swapped: the code as written throws. */
  lemma WrittenThrows()
    ensures var a, b := ["A", "B", "C"], ["B", "A", "C"];
      var pairs := [Match(0, 1), Match(1, 0), Match(2, 2)];
      (forall k :: 0 <= k < 3 ==> UniqueMatch(pairs[k], a, 0, 3, b, 0, 3)) && WrittenPicks(pairs).None?
  {
    var a, b := ["A", "B", "C"], ["B", "A", "C"];
    var pairs := [Match(0, 1), Match(1, 0), Match(2, 2)];
    assert a[0][0] == 'A' && a[1][0] == 'B' && a[2][0] == 'C';
    assert b[0][0] == 'B' && b[1][0] == 'A' && b[2][0] == 'C';
    WrittenThrowsAfterReorder(pairs, 1, 0, 1);
  }

  // -------------------------------------------------------- the diff as written

  /** The binary search loop. */
  method SearchPile(piles: seq<Match>, pileTop: seq<nat>, bVal: nat) returns (found: Option<nat>)
    requires |pileTop| == |piles|
    ensures found == WrittenSearch(piles, pileTop, bVal, 0, |piles|)
  {
    var lo: nat, hi: nat := 0, |piles|;
    while lo < hi
      invariant lo <= hi <= |piles|
      invariant WrittenSearch(piles, pileTop, bVal, lo, hi) == WrittenSearch(piles, pileTop, bVal, 0, |piles|)
    {
      var mid := (lo + hi) / 2;
      if pileTop[mid] >= |piles| {
        return None;
      }
      if piles[pileTop[mid]].b < bVal {
        lo := mid + 1;
      } else {
        hi := mid;
      }
    }
    found := Some(lo);
  }

  /** The dealing loop. */
  method DealAll(pairs: seq<Match>) returns (deal: Option<Deal>)
    ensures deal == WrittenDeal(pairs, |pairs|)
  {
    deal := Some(Deal([], [], []));
    for i := 0 to |pairs|
      invariant deal.Some? && deal == WrittenDeal(pairs, i)
    {
      DealUnfolds(pairs, i, deal.value);
      deal := DealOne(deal.value, pairs[i]);
      if deal.None? {
        ThrownStays(pairs, i + 1, |pairs|);
        return;
      }
    }
  }

  /** One turn of it. */
  method DealOne(d: Deal, m: Match) returns (deal: Option<Deal>)
    requires |d.pileTop| == |d.piles| && Backward(d)
    ensures deal == DealNext(d, m)
  {
    var lo := SearchPile(d.piles, d.pileTop, m.b);
    if lo.None? {
      return None;
    }
    var prev := d.prev + [if lo.value > 0 then d.pileTop[lo.value - 1] else -1];
    var pileTop := Put(d.pileTop, lo.value, |d.prev|);
    var piles := Put(d.piles, lo.value, m);
    deal := Some(Deal(piles, pileTop, prev));
  }

  /** `longestIncreasingSubsequence`, loops and all. */
  method SortPairs(pairs: seq<Match>) returns (result: Option<seq<Match>>)
    ensures result.None? <==> WrittenPicks(pairs).None?
    ensures result.Some? ==> Picked(WrittenPicks(pairs).value, pairs, result.value)
  {
    if |pairs| == 0 {
      return Some([]);
    }
    var deal := DealAll(pairs);
    if deal.None? {
      return None;
    }
    var d := deal.value;
    var chain: seq<Match> := [];
    ghost var picks: seq<nat> := [];
    var k: int := d.pileTop[|d.piles| - 1];
    while k != -1
      invariant -1 <= k < |pairs|
      invariant WrittenChain(d.prev, k) + picks == WrittenChain(d.prev, d.pileTop[|d.piles| - 1])
      invariant |picks| == |chain| && forall j :: 0 <= j < |picks| ==> picks[j] < |pairs| && chain[j] == pairs[picks[j]]
      decreases k
    {
      ConcatAssociative(WrittenChain(d.prev, d.prev[k]), [k], picks);
      chain, picks := [pairs[k]] + chain, [k] + picks;
      k := d.prev[k];
    }
    NilConcat(picks);
    result := Some(chain);
  }

  /** The sort throws on the shared unique lines of this part of the texts. */
  ghost predicate ThrowsOn(a: seq<string>, aLo: nat, aHi: nat, b: seq<string>, bLo: nat, bHi: nat) {
    && aLo <= aHi <= |a| && bLo <= bHi <= |b|
    && exists pairs :: SortedByA(pairs) && (forall m :: m in pairs <==> UniqueMatch(m, a, aLo, aHi, b, bLo, bHi))
         && WrittenPicks(pairs).None?
  }

  method WrittenAnchors(a: seq<string>, aLo: nat, aHi: nat, b: seq<string>, bLo: nat, bHi: nat)
    returns (anchors: Option<seq<Match>>)
    requires aLo <= aHi <= |a| && bLo <= bHi <= |b|
    ensures anchors.None? ==> ThrowsOn(a, aLo, aHi, b, bLo, bHi) && !SameParts(a, aLo, aHi, b, bLo, bHi)
    ensures anchors.Some? ==> UniqueChain(anchors.value, a, aLo, aHi, b, bLo, bHi)
    ensures anchors.Some? ==> Sorted(a, b)(anchors.value, aLo, aHi, bLo, bHi)
    ensures anchors.Some? && (exists m :: UniqueMatch(m, a, aLo, aHi, b, bLo, bHi)) ==> anchors.value != []
  {
    var pairs := UniquePairs(a, aLo, aHi, b, bLo, bHi);
    if SameParts(a, aLo, aHi, b, bLo, bHi) {
      SameKeepsOrder(pairs, a, aLo, aHi, b, bLo, bHi);
    }
    anchors := SortPairs(pairs);
    if anchors.Some? {
      WrittenAnchorsAreSound(a, aLo, aHi, b, bLo, bHi, pairs, anchors.value);
      SomeAnchor(a, aLo, aHi, b, bLo, bHi, pairs);
    } else {
      assert ThrowsOn(a, aLo, aHi, b, bLo, bHi);
    }
  }

  lemma SomeAnchor(a: seq<string>, aLo: nat, aHi: nat, b: seq<string>, bLo: nat, bHi: nat, pairs: seq<Match>)
    requires forall m :: m in pairs <==> UniqueMatch(m, a, aLo, aHi, b, bLo, bHi)
    ensures (exists m :: UniqueMatch(m, a, aLo, aHi, b, bLo, bHi)) ==> pairs != []
  {
    if m :| UniqueMatch(m, a, aLo, aHi, b, bLo, bHi) {
      assert m in pairs;
    }
  }

  /** Of equal parts the shared unique lines keep their order, so nothing is thrown. */
  lemma SameKeepsOrder(pairs: seq<Match>, a: seq<string>, aLo: nat, aHi: nat, b: seq<string>, bLo: nat, bHi: nat)
    requires aHi <= |a| && bHi <= |b| && SameParts(a, aLo, aHi, b, bLo, bHi) && SortedByA(pairs)
    requires forall m :: m in pairs ==> UniqueMatch(m, a, aLo, aHi, b, bLo, bHi)
    ensures WrittenPicks(pairs).Some?
  {
    forall k, l | 0 <= k < l < |pairs| ensures pairs[k].b < pairs[l].b {
      assert pairs[k] in pairs && pairs[l] in pairs;
      UniqueIsDiagonal(pairs[k], a, aLo, aHi, b, bLo, bHi);
      UniqueIsDiagonal(pairs[l], a, aLo, aHi, b, bLo, bHi);
    }
    WrittenKeepsOrder(pairs);
  }

  /** The chain the sort as written picks from the shared unique lines, in the order of the old text. */
  ghost function Sorted(a: seq<string>, b: seq<string>): Choice {
    (chain: seq<Match>, aLo: nat, aHi: nat, bLo: nat, bHi: nat) => aHi <= |a| && bHi <= |b| && exists pairs, picks ::
      && SortedByA(pairs) && (forall m :: m in pairs <==> UniqueMatch(m, a, aLo, aHi, b, bLo, bHi))
      && WrittenPicks(pairs) == Some(picks) && Picked(picks, pairs, chain)
  }

  /**
   * How much the diff as written keeps, where it does not throw: as `KeepsWell`, but that the chain of
   * lines unique on both sides is the one the sort as written picks, which need not be a longest one.
   */
  ghost predicate KeepsAnchors(ops: seq<DiffOp>, a: seq<string>, aLo: nat, aHi: nat, b: seq<string>, bLo: nat, bHi: nat)
    requires aLo <= aHi <= |a| && bLo <= bHi <= |b|
  {
    var kept := KeptPairs(ops, aLo, bLo);
    && CommonSubsequence(kept, a, aLo, aHi, b, bLo, bHi)
    && Patient(Sorted(a, b), kept, a, aLo, aHi, b, bLo, bHi)
    && ((forall m :: !UniqueMatch(m, a, aLo, aHi, b, bLo, bHi)) ==>
          forall ms :: CommonSubsequence(ms, a, aLo, aHi, b, bLo, bHi) ==> |ms| <= |kept|)
    && ((exists m :: UniqueMatch(m, a, aLo, aHi, b, bLo, bHi)) ==>
          exists chain :: chain != [] && UniqueChain(chain, a, aLo, aHi, b, bLo, bHi) && forall m :: m in chain ==> m in kept)
    && (SameParts(a, aLo, aHi, b, bLo, bHi) ==> |kept| == aHi - aLo)
    && (ShareALine(a, aLo, aHi, b, bLo, bHi) ==> kept != [])
  }

  /** The recursion as written: where it does not throw, it emits an exact edit script; equal parts never throw. */
  method WrittenRecurse(a: seq<string>, aLo: nat, aHi: nat, b: seq<string>, bLo: nat, bHi: nat)
    returns (ops: Option<seq<DiffOp>>)
    requires aLo <= aHi <= |a| && bLo <= bHi <= |b|
    ensures ops.Some? ==> Spells(ops.value, a[aLo..aHi], b[bLo..bHi]) && KeepsAnchors(ops.value, a, aLo, aHi, b, bLo, bHi)
    ensures ops.None? ==> (exists i, j, k, l :: ThrowsOn(a, i, j, b, k, l)) && !SameParts(a, aLo, aHi, b, bLo, bHi)
    decreases aHi - aLo, 2
  {
    if aLo == aHi || bLo == bHi {
      var rest := EmitRest(a, aLo, aHi, b, bLo, bHi);
      NothingToKeep(a, aLo, aHi, b, bLo, bHi);
      return Some(rest);
    }
    ghost var choice := Sorted(a, b);
    var anchors := WrittenAnchors(a, aLo, aHi, b, bLo, bHi);
    if anchors.None? {
      return None;
    }
    if |anchors.value| == 0 {
      var lcs := MyersLcs(a, aLo, aHi, b, bLo, bHi);
      var script := EmitFromLcs(a, aLo, aHi, b, bLo, bHi, lcs);
      MostKeepsWell(script, a, aLo, aHi, b, bLo, bHi);
      return Some(script);
    }
    ops := WrittenBetween(a, aLo, aHi, b, bLo, bHi, anchors.value, choice);
    if ops.Some? {
      KeptAreCommon(ops.value, a, aLo, aHi, b, bLo, bHi);
      assert anchors.value[0] in anchors.value;
    }
  }

  /** The loop over the anchors. */
  method WrittenBetween(
    a: seq<string>, aLo: nat, aHi: nat, b: seq<string>, bLo: nat, bHi: nat, anchors: seq<Match>,
    ghost choice: Choice)
    returns (ops: Option<seq<DiffOp>>)
    requires choice == Sorted(a, b) && aLo <= aHi <= |a| && bLo <= bHi <= |b|
    requires anchors != [] && UniqueChain(anchors, a, aLo, aHi, b, bLo, bHi)
    ensures ops.Some? ==>
      && Spells(ops.value, a[aLo..aHi], b[bLo..bHi])
      && (forall m :: m in anchors ==> m in KeptPairs(ops.value, aLo, bLo))
      && (SameParts(a, aLo, aHi, b, bLo, bHi) ==> |KeptPairs(ops.value, aLo, bLo)| == aHi - aLo)
      && InGaps(choice, KeptPairs(ops.value, aLo, bLo), anchors, a, aLo, aHi, b, bLo, bHi)
    ensures ops.None? ==> (exists i, j, k, l :: ThrowsOn(a, i, j, b, k, l)) && !SameParts(a, aLo, aHi, b, bLo, bHi)
    decreases aHi - aLo, 1
  {
    var script: seq<DiffOp> := [];
    var prevAi: nat, prevBi: nat := aLo, bLo;
    for n := 0 to |anchors|
      invariant PastAnchors(script, choice, a, aLo, aHi, b, bLo, bHi, anchors, Place(n, prevAi, prevBi))
    {
      var next := WrittenGap(script, choice, a, aLo, aHi, b, bLo, bHi, anchors, n, prevAi, prevBi);
      if next.None? {
        return None;
      }
      script := next.value;
      prevAi, prevBi := anchors[n].a + 1, anchors[n].b + 1;
    }
    ops := WrittenRest(script, choice, a, aLo, aHi, b, bLo, bHi, anchors, prevAi, prevBi);
  }

  /** The gap before an anchor, and the anchor's line. */
  method WrittenGap(
    script: seq<DiffOp>, ghost choice: Choice, a: seq<string>, aLo: nat, aHi: nat, b: seq<string>, bLo: nat, bHi: nat,
    anchors: seq<Match>, n: nat, prevAi: nat, prevBi: nat)
    returns (next: Option<seq<DiffOp>>)
    requires aHi <= |a| && bHi <= |b| && n < |anchors| && UniqueChain(anchors, a, aLo, aHi, b, bLo, bHi)
    requires choice == Sorted(a, b) && PastAnchors(script, choice, a, aLo, aHi, b, bLo, bHi, anchors, Place(n, prevAi, prevBi))
    ensures next.Some? ==>
      PastAnchors(next.value, choice, a, aLo, aHi, b, bLo, bHi, anchors, Place(n + 1, anchors[n].a + 1, anchors[n].b + 1))
    ensures next.None? ==> (exists i, j, k, l :: ThrowsOn(a, i, j, b, k, l)) && !SameParts(a, aLo, aHi, b, bLo, bHi)
    decreases aHi - aLo, 0
  {
    var ai, bi := anchors[n].a, anchors[n].b;
    SamePartUpTo(a, aLo, aHi, b, bLo, bHi, anchors, n, prevAi, prevBi);
    var gap := WrittenRecurse(a, prevAi, ai, b, prevBi, bi);
    if gap.None? {
      return None;
    }
    var more := AppendAnchor(script, gap.value, choice, a, aLo, aHi, b, bLo, bHi, anchors, n, prevAi, prevBi);
    next := Some(more);
  }

  /** The gap after the last anchor. */
  method WrittenRest(
    script: seq<DiffOp>, ghost choice: Choice, a: seq<string>, aLo: nat, aHi: nat, b: seq<string>, bLo: nat, bHi: nat,
    anchors: seq<Match>, prevAi: nat, prevBi: nat)
    returns (ops: Option<seq<DiffOp>>)
    requires aHi <= |a| && bHi <= |b| && anchors != [] && UniqueChain(anchors, a, aLo, aHi, b, bLo, bHi)
    requires choice == Sorted(a, b) && PastAnchors(script, choice, a, aLo, aHi, b, bLo, bHi, anchors, Place(|anchors|, prevAi, prevBi))
    ensures ops.Some? ==>
      && Spells(ops.value, a[aLo..aHi], b[bLo..bHi])
      && (forall m :: m in anchors ==> m in KeptPairs(ops.value, aLo, bLo))
      && (SameParts(a, aLo, aHi, b, bLo, bHi) ==> |KeptPairs(ops.value, aLo, bLo)| == aHi - aLo)
      && InGaps(choice, KeptPairs(ops.value, aLo, bLo), anchors, a, aLo, aHi, b, bLo, bHi)
    ensures ops.None? ==> (exists i, j, k, l :: ThrowsOn(a, i, j, b, k, l)) && !SameParts(a, aLo, aHi, b, bLo, bHi)
    decreases aHi - aLo, 0
  {
    if SameParts(a, aLo, aHi, b, bLo, bHi) {
      PartsOfSame(a, aLo, aHi, b, bLo, bHi, prevAi, prevBi, aHi - prevAi);
    }
    var gap := WrittenRecurse(a, prevAi, aHi, b, prevBi, bHi);
    if gap.None? {
      return None;
    }
    SliceEnds(anchors, |anchors|);
    PassRest(script, gap.value, choice, a, aLo, aHi, b, bLo, bHi, anchors, prevAi, prevBi);
    ops := Some(script + gap.value);
  }

  /** In equal parts the gap before an anchor is one of equal parts too. */
  lemma SamePartUpTo(
    a: seq<string>, aLo: nat, aHi: nat, b: seq<string>, bLo: nat, bHi: nat, anchors: seq<Match>, n: nat, prevAi: nat, prevBi: nat)
    requires aHi <= |a| && bHi <= |b| && n < |anchors| && UniqueChain(anchors, a, aLo, aHi, b, bLo, bHi)
    requires aLo <= prevAi <= anchors[n].a && bLo <= prevBi <= anchors[n].b
    requires SameParts(a, aLo, aHi, b, bLo, bHi) ==> prevAi - aLo == prevBi - bLo
    ensures SameParts(a, aLo, aHi, b, bLo, bHi) ==> SameParts(a, prevAi, anchors[n].a, b, prevBi, anchors[n].b)
  {
    if SameParts(a, aLo, aHi, b, bLo, bHi) {
      assert anchors[n] in anchors;
      UniqueIsDiagonal(anchors[n], a, aLo, aHi, b, bLo, bHi);
      PartsOfSame(a, aLo, aHi, b, bLo, bHi, prevAi, prevBi, anchors[n].a - prevAi);
    }
  }

  /**
   * The diff as written: it throws on some part of the texts, or is an exact, coalesced edit script that
   * keeps equal texts whole, in one operation, and a line of texts that share one.
   */
  method WrittenDiff(a: seq<string>, b: seq<string>) returns (ops: Option<seq<DiffOp>>)
    ensures ops.Some? ==> Spells(ops.value, a, b) && Coalesced(ops.value) && KeepsAnchors(ops.value, a, 0, |a|, b, 0, |b|)
    ensures ops.None? ==> exists i, j, k, l :: ThrowsOn(a, i, j, b, k, l)
    ensures a == b && a != [] ==> ops == Some([DiffOp(Equal, a)])
  {
    SliceEnds(a, 0);
    SliceEnds(b, 0);
    var raw := WrittenRecurse(a, 0, |a|, b, 0, |b|);
    if raw.None? {
      return None;
    }
    var script := CoalesceOps(raw.value);
    if a == b && a != [] {
      AllInOne(script, a);
    }
    ops := Some(script);
  }

  /**
   * `threeWayMerge` with that diff: it throws only where a diff does, and otherwise is the merge of
   * two exact diffs, so what holds of every such merge holds of the code as written.
   */
  method WrittenMerge(ancestorText: string, localText: string, remoteText: string)
    returns (result: Option<ThreeWay.MergeResult>)
    ensures var anc, local, remote :=
        Text.NormalizeLines(ancestorText), Text.NormalizeLines(localText), Text.NormalizeLines(remoteText);
      && (result.Some? ==> exists localDiff, remoteDiff ::
            && result.value == ThreeWay.MergeLines(anc, local, remote, localDiff, remoteDiff)
            && (ThreeWay.ShortCut(anc, local, remote) || (
                  && Spells(localDiff, anc, local) && Coalesced(localDiff)
                  && Spells(remoteDiff, anc, remote) && Coalesced(remoteDiff))))
      && (result.None? ==> !ThreeWay.ShortCut(anc, local, remote) && exists i, j, k, l ::
            ThrowsOn(anc, i, j, local, k, l) || ThrowsOn(anc, i, j, remote, k, l))
  {
    var anc := Text.NormalizeLines(ancestorText);
    var local := Text.NormalizeLines(localText);
    var remote := Text.NormalizeLines(remoteText);
    if Text.Join(local, Text.LF) == Text.Join(remote, Text.LF) {
      result := Some(ThreeWay.MergeResult(local, [], false));
      assert result.value == ThreeWay.MergeLines(anc, local, remote, [], []);
      return;
    }
    if Text.Join(local, Text.LF) == Text.Join(anc, Text.LF) {
      result := Some(ThreeWay.MergeResult(remote, [], false));
      assert result.value == ThreeWay.MergeLines(anc, local, remote, [], []);
      return;
    }
    if Text.Join(remote, Text.LF) == Text.Join(anc, Text.LF) {
      result := Some(ThreeWay.MergeResult(local, [], false));
      assert result.value == ThreeWay.MergeLines(anc, local, remote, [], []);
      return;
    }
    var localDiff := WrittenDiff(anc, local);
    if localDiff.None? {
      return None;
    }
    var remoteDiff := WrittenDiff(anc, remote);
    if remoteDiff.None? {
      return None;
    }
    var merged := ThreeWay.MergeFromDiffs(anc, localDiff.value, remoteDiff.value);
    result := Some(merged);
    assert merged == ThreeWay.MergeLines(anc, local, remote, localDiff.value, remoteDiff.value);
  }
}
