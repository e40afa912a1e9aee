/**
 * `shuffleArray` (game.js:24-26): every element is paired with a key drawn
 * from `Math.random`, the pairs are sorted by key, and the keys are dropped.
 * The random keys are a parameter: one per element, in element order.
 */
module Shuffle {
  import opened Sorting

  /** The comparator `(a, b) => a[0] - b[0]`, read as "does not come after". */
  function ByKey<T>(): ((real, T), (real, T)) -> bool {
    (a: (real, T), b: (real, T)) => a.0 - b.0 <= 0.0
  }

  /** `arr.map(a => [Math.random(), a])` with the drawn keys given. */
  function Tag<T>(arr: seq<T>, keys: seq<real>): seq<(real, T)>
    requires |keys| == |arr|
  {
    seq(|arr|, i requires 0 <= i < |arr| => (keys[i], arr[i]))
  }

  /** `.map(a => a[1])`: the values without their keys. */
  function Untag<T>(s: seq<(real, T)>): (r: seq<T>)
    ensures |r| == |s|
  {
    if s == [] then [] else [s[0].1] + Untag(s[1..])
  }

  function ShuffleArray<T>(arr: seq<T>, keys: seq<real>): (r: seq<T>)
    requires |keys| == |arr|
    ensures multiset(r) == multiset(arr)
    ensures |r| == |arr|
  {
    var tagged := Tag(arr, keys);
    UntagTag(arr, keys);
    UntagSortBy(tagged, ByKey());
    var r := Untag(SortBy(tagged, ByKey()));
    assert |r| == |multiset(r)| == |multiset(arr)| == |arr|;
    r
  }

  lemma {:induction false} UntagTag<T>(arr: seq<T>, keys: seq<real>)
    requires |keys| == |arr|
    ensures Untag(Tag(arr, keys)) == arr
  {
    if arr != [] {
      assert Tag(arr, keys)[1..] == Tag(arr[1..], keys[1..]);
      UntagTag(arr[1..], keys[1..]);
    }
  }

  lemma {:induction false} UntagAppend<T>(a: seq<(real, T)>, b: seq<(real, T)>)
    ensures Untag(a + b) == Untag(a) + Untag(b)
  {
    if a == [] {
      assert a + b == b;
    } else {
      assert (a + b)[1..] == a[1..] + b;
      UntagAppend(a[1..], b);
    }
  }

  lemma {:induction false} UntagInsert<T>(x: (real, T), t: seq<(real, T)>, le: ((real, T), (real, T)) -> bool)
    ensures multiset(Untag(Insert(x, t, le))) == multiset(Untag(t)) + multiset{x.1}
  {
    if t == [] {
    } else if le(x, t[0]) {
      UntagAppend([x], t);
    } else {
      UntagInsert(x, t[1..], le);
      UntagAppend([t[0]], Insert(x, t[1..], le));
      UntagAppend([t[0]], t[1..]);
      assert t == [t[0]] + t[1..];
    }
  }

  /** Sorting the tagged pairs only reorders the values. */
  lemma {:induction false} UntagSortBy<T>(s: seq<(real, T)>, le: ((real, T), (real, T)) -> bool)
    ensures multiset(Untag(SortBy(s, le))) == multiset(Untag(s))
  {
    if s != [] {
      UntagSortBy(s[1..], le);
      UntagInsert(s[0], SortBy(s[1..], le), le);
    }
  }
}
