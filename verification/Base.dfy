/** The types and the sequence facts every module shares. */
module Base {
  datatype Option<+T> = None | Some(value: T)

  newtype byte = x: int | 0 <= x < 256

  type Bytes = seq<byte>

  function Max(x: nat, y: nat): nat {
    if x >= y then x else y
  }

  function Min(x: nat, y: nat): nat {
    if x <= y then x else y
  }

  /** Sequence concatenation is associative; stated once so that proofs can name the instance. */
  lemma ConcatAssociative<T>(x: seq<T>, y: seq<T>, z: seq<T>)
    ensures (x + y) + z == x + (y + z)
  {
  }

  lemma NilConcat<T>(x: seq<T>)
    ensures [] + x == x && x + [] == x
  {
  }

  lemma ConsParts<T>(x: T, rest: seq<T>)
    ensures ([x] + rest)[0] == x && ([x] + rest)[1..] == rest
  {
  }

  lemma ConsAppend<T>(xs: seq<T>, ys: seq<T>)
    requires xs != []
    ensures xs == [xs[0]] + xs[1..] && xs + ys == [xs[0]] + (xs[1..] + ys)
    ensures (xs + ys)[0] == xs[0] && (xs + ys)[1..] == xs[1..] + ys
  {
  }

  lemma SliceCons<T>(s: seq<T>, lo: nat, hi: nat)
    requires lo < hi <= |s|
    ensures s[lo..hi] == [s[lo]] + s[lo + 1..hi]
  {
  }

  lemma SliceSnoc<T>(s: seq<T>, k: nat)
    requires k < |s|
    ensures s[..k + 1] == s[..k] + [s[k]] && s[..k + 1][..k] == s[..k]
  {
  }

  lemma LastParts<T>(s: seq<T>)
    requires s != []
    ensures s == s[..|s| - 1] + [s[|s| - 1]]
  {
  }

  lemma SnocParts<T>(s: seq<T>, x: T)
    ensures (s + [x])[..|s|] == s && (s + [x])[|s|] == x
  {
  }

  lemma LastJoins<T>(s: seq<T>, t: seq<T>)
    requires s != []
    ensures var k := |s| - 1; (s + t)[k] == s[k] && (s + t)[k + 1..] == t && (s + t)[..k] == s[..k]
  {
  }

  lemma SliceEnds<T>(s: seq<T>, k: nat)
    requires k <= |s|
    ensures s[k..k] == [] && s[..|s|] == s && s[0..] == s && s[..0] == [] && s[k..|s|] == s[k..] && s[|s|..] == []
  {
  }

  lemma SliceOfSlice<T>(s: seq<T>, lo: nat, hi: nat, from: nat, n: nat)
    requires lo <= hi <= |s| && from + n <= hi - lo
    ensures s[lo..hi][from..from + n] == s[lo + from..lo + from + n]
  {
    var left, right := s[lo..hi][from..from + n], s[lo + from..lo + from + n];
    assert |left| == |right|;
    assert forall k :: 0 <= k < n ==> left[k] == right[k];
  }

  lemma SuffixSplit<T>(s: seq<T>, lo: nat, mid: nat)
    requires lo <= mid <= |s|
    ensures s[lo..] == s[lo..mid] + s[mid..]
  {
  }

  /** Putting equals for equals in a concatenation. */
  lemma SecondIs<T>(whole: seq<T>, x: seq<T>, second: seq<T>, y: seq<T>, z: seq<T>)
    requires whole == x + second && second == y + z
    ensures whole == x + (y + z)
  {
  }

  lemma FirstIs<T>(whole: seq<T>, first: seq<T>, last: seq<T>, x: seq<T>, y: seq<T>)
    requires whole == first + last && first == x + y
    ensures whole == x + (y + last)
  {
  }

  lemma TailIs<T>(whole: seq<T>, x: seq<T>, last: seq<T>, y: seq<T>)
    requires whole == x + last && last == y
    ensures whole == x + y
  {
  }

  lemma EmptyConcat<T>(whole: seq<T>, x: seq<T>, y: seq<T>)
    requires whole == x + y
    ensures whole == [] <==> x == [] && y == []
  {
  }

  lemma Regroup<T>(whole: seq<T>, head: seq<T>, tail: seq<T>, x: seq<T>, y: seq<T>, first: seq<T>)
    requires whole == head + tail && tail == x + y && first == head + x
    ensures whole == first + y
  {
  }

  lemma LastIs<T>(whole: seq<T>, x: seq<T>, y: seq<T>, last: seq<T>, z: seq<T>)
    requires whole == x + y + last && last == z
    ensures whole == x + y + z
  {
  }

  /** The middle of three parts. */
  lemma MiddleSlice<T>(x: seq<T>, y: seq<T>, z: seq<T>)
    ensures (x + (y + z))[|x|..|x| + |y|] == y && |x| + |y| <= |x + (y + z)|
  {
  }
}
