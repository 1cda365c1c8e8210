/** What the queue of a client and the players of a room have in common. */
module Sequences {

  /** A sequence without its i-th element, if there is one. */
  function Without<T>(s: seq<T>, i: int): seq<T> {
    if 0 <= i < |s| then s[..i] + s[i + 1..] else s
  }

  predicate Increasing(xs: seq<int>) {
    forall i, j | 0 <= i < j < |xs| :: xs[i] < xs[j]
  }

  lemma WithoutNext<T>(head: T, tail: seq<T>, i: nat)
    requires i <= |tail|
    ensures [head] + Without(tail, i) == Without([head] + tail, i + 1)
  {
    var all := [head] + tail;
    assert all[..i + 1] == [head] + tail[..i];
    if i < |tail| { assert all[i + 2..] == tail[i + 1..]; }
  }

  lemma WithoutKeepsIncreasing(xs: seq<int>, i: int)
    requires Increasing(xs)
    ensures Increasing(Without(xs, i))
  {
    if 0 <= i < |xs| {
      var w := Without(xs, i);
      forall a, b | 0 <= a < b < |w| ensures w[a] < w[b] {
        assert w[a] == xs[if a < i then a else a + 1] && w[b] == xs[if b < i then b else b + 1];
      }
    }
  }

  /** Taking out one element takes out that element and, if all are different, no other. */
  lemma WithoutContents(xs: seq<int>, i: int, x: int)
    requires Increasing(xs)
    ensures x in Without(xs, i) <==> x in xs && !(0 <= i < |xs| && xs[i] == x)
  {
    if 0 <= i < |xs| {
      var w := Without(xs, i);
      if x in xs && xs[i] != x {
        var k :| 0 <= k < |xs| && xs[k] == x;
        assert w[if k < i then k else k - 1] == x;
      }
      if x in w {
        var k :| 0 <= k < |w| && w[k] == x;
        assert xs[if k < i then k else k + 1] == x;
      }
    }
  }

  // ---------------------------------------------------------------- how many

  function Elements(xs: seq<int>): set<int> {
    set x | x in xs
  }

  lemma {:induction false} ElementsSize(xs: seq<int>)
    ensures |Elements(xs)| <= |xs|
    ensures Increasing(xs) ==> |Elements(xs)| == |xs|
  {
    if xs == [] {
      assert Elements(xs) == {};
    } else {
      var front, last := xs[..|xs| - 1], xs[|xs| - 1];
      ElementsSize(front);
      assert Elements(xs) == Elements(front) + {last};
      if Increasing(xs) {
        assert Increasing(front);
        assert last !in Elements(front);
      }
    }
  }

  lemma SubsetSize(a: set<int>, b: set<int>)
    requires a <= b
    ensures |a| <= |b|
  {
    assert b == a + (b - a);
  }

  /** The whole numbers above `low` up to `high`. */
  function Between(low: int, high: int): (r: set<int>)
    ensures forall n :: n in r <==> low < n <= high
    ensures |r| == if low < high then high - low else 0
    decreases high - low
  {
    if low >= high then {} else Between(low, high - 1) + {high}
  }
}
