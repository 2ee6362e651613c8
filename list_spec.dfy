// The abstract view of a doubly linked list: the sequence of values read
// from head to tail, and the effect each list operation has on it.
module ListSpec {

  /** `s` with the element at index `k` taken out; the others keep their order. */
  function RemoveAt<T>(s: seq<T>, k: nat): (r: seq<T>)
    requires k < |s|
    ensures |r| == |s| - 1
    ensures forall j {:trigger r[j]} :: 0 <= j < |r| ==> r[j] == if j < k then s[j] else s[j + 1]
  {
    s[..k] + s[k + 1..]
  }

  /** Removing element `k` takes exactly one copy of it out of the multiset. */
  lemma RemoveAtMultiset<T>(s: seq<T>, k: nat)
    requires k < |s|
    ensures multiset(RemoveAt(s, k)) + multiset{s[k]} == multiset(s)
  {
    assert s == s[..k] + [s[k]] + s[k + 1..];
  }

  /** Element `k` brought to the front; the rest keep their relative order. */
  function MovedToFront<T>(s: seq<T>, k: nat): (r: seq<T>)
    requires k < |s|
    ensures |r| == |s|
    ensures r[0] == s[k]
    ensures forall j {:trigger r[j]} :: 0 < j < |r| ==> r[j] == if j <= k then s[j - 1] else s[j]
  {
    [s[k]] + RemoveAt(s, k)
  }

  /** Moving an element to the front permutes the sequence. */
  lemma MovedToFrontIsPermutation<T>(s: seq<T>, k: nat)
    requires k < |s|
    ensures multiset(MovedToFront(s, k)) == multiset(s)
  {
    RemoveAtMultiset(s, k);
  }

  /** Element `k` sent to the back; the rest keep their relative order. */
  function MovedToEnd<T>(s: seq<T>, k: nat): (r: seq<T>)
    requires k < |s|
    ensures |r| == |s|
    ensures r[|r| - 1] == s[k]
    ensures forall j {:trigger r[j]} :: 0 <= j < |r| - 1 ==> r[j] == if j < k then s[j] else s[j + 1]
  {
    RemoveAt(s, k) + [s[k]]
  }

  /** Moving an element to the end permutes the sequence. */
  lemma MovedToEndIsPermutation<T>(s: seq<T>, k: nat)
    requires k < |s|
    ensures multiset(MovedToEnd(s, k)) == multiset(s)
  {
    RemoveAtMultiset(s, k);
  }

  function Max(a: int, b: int): int {
    if a < b then b else a
  }

  /** `m` is the largest element of `s` and occurs in it. */
  ghost predicate IsMaxOf(m: int, s: seq<int>) {
    (exists i :: 0 <= i < |s| && s[i] == m) &&
    (forall i :: 0 <= i < |s| ==> s[i] <= m)
  }

  /**
   * The value of an accumulator that starts at `seed` and is raised to each
   * element of `s` in turn, scanning from the front.
   */
  function RunningMax(seed: int, s: seq<int>): (r: int)
    ensures seed <= r
    ensures forall i :: 0 <= i < |s| ==> s[i] <= r
    ensures r == seed || exists i :: 0 <= i < |s| && s[i] == r
  {
    if s == [] then seed
    else
      var m := RunningMax(seed, s[..|s| - 1]);
      assert forall i :: 0 <= i < |s| - 1 ==> s[..|s| - 1][i] == s[i];
      Max(m, s[|s| - 1])
  }

  /**
   * A scan seeded with 0 yields the true maximum of a non-empty sequence
   * exactly when some element is at least 0.
   */
  lemma ZeroSeededMaxExact(s: seq<int>)
    requires s != []
    ensures IsMaxOf(RunningMax(0, s), s) <==> exists i :: 0 <= i < |s| && 0 <= s[i]
  {
    var r := RunningMax(0, s);
    if exists i :: 0 <= i < |s| && 0 <= s[i] {
      var i :| 0 <= i < |s| && 0 <= s[i];
      if r == 0 {
        assert s[i] <= 0;
        assert s[i] == r;
      }
    }
  }

  /** A scan seeded with the first element yields the true maximum. */
  lemma HeadSeededMaxExact(s: seq<int>)
    requires s != []
    ensures IsMaxOf(RunningMax(s[0], s), s)
  {
  }

  /** Extending the scanned prefix by one element raises the accumulator to it. */
  lemma RunningMaxStep(seed: int, s: seq<int>, k: nat)
    requires k < |s|
    ensures RunningMax(seed, s[..k + 1]) == Max(RunningMax(seed, s[..k]), s[k])
  {
    assert s[..k + 1][..k] == s[..k];
  }
}
