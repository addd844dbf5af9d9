/** Majority choice as the source's two voters make it. Both `max(d, key=d.get)` over a
    dict filled in first-seen order (stego/core/message.py) and `Counter(xs).most_common(1)`
    (stego/image_coder.py) return a value of highest count, and among values of equal count
    the one that occurs first in the input. */
module Voting {
  import opened Common

  /** How often `x` occurs in `xs` (`list.count`). */
  function Count<T(==)>(xs: seq<T>, x: T): nat {
    multiset(xs)[x]
  }

  /** Position of the first occurrence of `x` in `xs`. */
  function FirstIndex<T(==)>(xs: seq<T>, x: T): (k: nat)
    requires x in xs
    ensures k < |xs| && xs[k] == x && x !in xs[..k]
  {
    if xs[0] == x then 0 else 1 + FirstIndex(xs[1..], x)
  }

  /** The first occurrence is the position where `x` occurs and does not occur before. */
  lemma {:induction false} FirstIndexIs<T>(xs: seq<T>, x: T, k: nat)
    requires k < |xs| && xs[k] == x && x !in xs[..k]
    ensures FirstIndex(xs, x) == k
  {
    if k > 0 {
      assert xs[..k][0] == xs[0];
      assert xs[1..][..k - 1] == xs[..k][1..];
      FirstIndexIs(xs[1..], x, k - 1);
    }
  }

  /** No occurrence comes before the first one. */
  lemma {:induction false} FirstIndexAtMost<T>(xs: seq<T>, j: nat)
    requires j < |xs|
    ensures FirstIndex(xs, xs[j]) <= j
  {
    if xs[0] != xs[j] {
      FirstIndexAtMost(xs[1..], j - 1);
    }
  }

  /** Prepending values other than `x` moves its first occurrence by their number. */
  lemma FirstIndexShift<T>(head: seq<T>, rest: seq<T>, x: T)
    requires x !in head && x in rest
    ensures FirstIndex(head + rest, x) == |head| + FirstIndex(rest, x)
  {
    var i := FirstIndex(rest, x);
    assert (head + rest)[..|head| + i] == head + rest[..i];
    FirstIndexIs(head + rest, x, |head| + i);
  }

  /** `x` occurs in `xs`, no value occurs more often, and every value first seen before `x`
      occurs strictly less often. */
  ghost predicate IsFirstMostFrequent<T>(xs: seq<T>, x: T) {
    x in xs
    && (forall j :: 0 <= j < |xs| ==> Count(xs, xs[j]) <= Count(xs, x))
    && (forall j :: 0 <= j < FirstIndex(xs, x) ==> Count(xs, xs[j]) < Count(xs, x))
  }

  /** What the scan keeps after reading `xs[..i]`: `best` is the first value of highest
      count among them. */
  ghost predicate Leading<T>(xs: seq<T>, i: nat, best: T) {
    0 < i <= |xs| && best in xs[..i]
    && (forall j :: 0 <= j < i ==> Count(xs, xs[j]) <= Count(xs, best))
    && (forall j :: 0 <= j < FirstIndex(xs, best) ==> Count(xs, xs[j]) < Count(xs, best))
  }

  /** Left-to-right scan keeping the first value of the highest count seen so far. */
  function Scan<T(==)>(xs: seq<T>, i: nat, best: T): (r: T)
    requires Leading(xs, i, best)
    ensures IsFirstMostFrequent(xs, r)
    decreases |xs| - i
  {
    if i == |xs| then
      assert xs[..i] == xs;
      best
    else if Count(xs, xs[i]) > Count(xs, best) then
      LeadingNew(xs, i, best);
      Scan(xs, i + 1, xs[i])
    else
      LeadingKept(xs, i, best);
      Scan(xs, i + 1, best)
  }

  /** A value met more often than the leader takes the lead ... */
  lemma LeadingNew<T>(xs: seq<T>, i: nat, best: T)
    requires Leading(xs, i, best) && i < |xs| && Count(xs, xs[i]) > Count(xs, best)
    ensures Leading(xs, i + 1, xs[i])
  {
    FirstIndexAtNew(xs, i);
    assert xs[..i + 1][i] == xs[i];
  }

  /** ... and otherwise the leader keeps it. */
  lemma LeadingKept<T>(xs: seq<T>, i: nat, best: T)
    requires Leading(xs, i, best) && i < |xs| && Count(xs, xs[i]) <= Count(xs, best)
    ensures Leading(xs, i + 1, best)
  {
    assert xs[..i + 1] == xs[..i] + [xs[i]];
  }

  /** A value not met before position `i` is first seen at `i`. */
  lemma FirstIndexAtNew<T>(xs: seq<T>, i: nat)
    requires i < |xs|
    requires forall j :: 0 <= j < i ==> Count(xs, xs[j]) < Count(xs, xs[i])
    ensures FirstIndex(xs, xs[i]) == i
  {
    var k := FirstIndex(xs, xs[i]);
    assert Count(xs, xs[k]) == Count(xs, xs[i]);
  }

  /** The vote: `None` for an empty input (the source's `max` of an empty dict raises,
      `strings[0]` of an empty list raises), otherwise the first value of highest count. */
  function MostFrequent<T(==)>(xs: seq<T>): (r: Option<T>)
    ensures r.None? <==> xs == []
    ensures r.Some? ==> IsFirstMostFrequent(xs, r.value)
  {
    if xs == [] then None
    else
      assert xs[..1] == [xs[0]];
      Some(Scan(xs, 1, xs[0]))
  }

  /** The vote is well defined: exactly one value is a first most frequent one. */
  lemma {:induction false} FirstMostFrequentUnique<T>(xs: seq<T>, x: T, y: T)
    requires IsFirstMostFrequent(xs, x) && IsFirstMostFrequent(xs, y)
    ensures x == y
  {
    var i, j := FirstIndex(xs, x), FirstIndex(xs, y);
    assert Count(xs, xs[i]) <= Count(xs, y) && Count(xs, xs[j]) <= Count(xs, x);
  }

  /** A value that occurs in every position is the vote. */
  lemma UnanimousVote<T>(xs: seq<T>, x: T)
    requires xs != [] && forall j :: 0 <= j < |xs| ==> xs[j] == x
    ensures MostFrequent(xs) == Some(x)
  {
    var r := MostFrequent(xs).value;
    assert r in xs;
  }
}
