/** The bit accuracy of a retrieved payload (scripts/utils.py, `calculate_accuracy`): the
    reference payload is repeated and cut to the retrieved length, both are unpacked to bits
    and the share of positions where the bits agree is returned. */
module Accuracy {
  import opened Common
  import opened CoreMessage

  /** The outcome of `calculate_accuracy`: `divmod` by an empty reference raises
      `ZeroDivisionError`; an empty retrieved payload gives numpy's `0 / 0`, a NaN; otherwise
      the fraction of matching bits. */
  datatype Accuracy = ZeroDivision | NotANumber | Fraction(value: real)

  /** `payload1 * repeats + payload1[:remainder]` with `repeats, remainder =
      divmod(n, len(payload1))`: the reference repeated to exactly `n` bytes. */
  function TileTo(p: seq<Byte>, n: nat): (r: seq<Byte>)
    requires p != []
    ensures |r| == n
    ensures forall i :: 0 <= i < n ==> r[i] == p[i % |p|]
  {
    var repeats, remainder := n / |p|, n % |p|;
    var r := Tile(p, repeats) + p[..remainder];
    forall i | 0 <= i < n
      ensures r[i] == p[i % |p|]
    {
      TileToAt(p, n, i);
    }
    r
  }

  lemma TileToAt(p: seq<Byte>, n: nat, i: nat)
    requires p != [] && i < n
    ensures |Tile(p, n / |p|) + p[..n % |p|]| == n
    ensures (Tile(p, n / |p|) + p[..n % |p|])[i] == p[i % |p|]
  {
    var repeats := n / |p|;
    var whole := repeats * |p|;
    FloorMultiple(n, |p|);
    var t := Tile(p, repeats) + p[..n % |p|];
    assert |t| == n;
    if i < whole {
      TileAt(p, repeats, i);
      assert t[i] == Tile(p, repeats)[i];
    } else {
      DivModUnique(i, |p|, repeats, i - whole);
      assert t[i] == p[i - whole];
    }
  }

  /** The number of positions at which two equally long bit lists agree:
      `np.sum(a == b)`. */
  function MatchCount(a: seq<int>, b: seq<int>): (count: nat)
    requires |a| == |b|
    ensures count <= |a|
    ensures count == |a| <==> a == b
  {
    if a == [] then 0
    else
      var rest := MatchCount(a[1..], b[1..]);
      if a[0] == b[0] then
        assert a == [a[0]] + a[1..] && b == [b[0]] + b[1..];
        1 + rest
      else
        rest
  }

  /** `calculate_accuracy(payload1, payload2)`; the warning it prints when the lengths differ
      is output only and changes nothing. */
  function CalculateAccuracy(payload1: seq<Byte>, payload2: seq<Byte>): (r: Accuracy)
    ensures r.ZeroDivision? <==> payload1 == []
    ensures r.NotANumber? <==> payload1 != [] && payload2 == []
    ensures r.Fraction? ==> 0.0 <= r.value <= 1.0
  {
    if payload1 == [] then ZeroDivision
    else if payload2 == [] then NotANumber
    else
      var original := BytesToBinary(TileTo(payload1, |payload2|));
      var retrieved := BytesToBinary(payload2);
      var matching := MatchCount(original, retrieved);
      Ratio(matching, |original|);
      Fraction(matching as real / |original| as real)
  }

  /** A share of a positive whole lies in [0, 1] and is 1 only for the whole itself. */
  lemma Ratio(part: nat, whole: nat)
    requires 0 < whole && part <= whole
    ensures 0.0 <= part as real / whole as real <= 1.0
    ensures part as real / whole as real == 1.0 <==> part == whole
  {
    var q := part as real / whole as real;
    assert q * whole as real == part as real;
  }

  /** The accuracy is exactly 1 when the retrieved payload is the reference repeated to its
      length, and only then. */
  lemma PerfectAccuracy(payload1: seq<Byte>, payload2: seq<Byte>)
    requires payload1 != [] && payload2 != []
    ensures CalculateAccuracy(payload1, payload2) == Fraction(1.0) <==> payload2 == TileTo(payload1, |payload2|)
  {
    var reference := TileTo(payload1, |payload2|);
    var original := BytesToBinary(reference);
    var retrieved := BytesToBinary(payload2);
    var count := MatchCount(original, retrieved);
    Ratio(count, |original|);
    if CalculateAccuracy(payload1, payload2) == Fraction(1.0) {
      assert original == retrieved;
      BinaryBytesRoundTrip(reference);
      BinaryBytesRoundTrip(payload2);
    }
  }

  /** A payload compared with itself, or with any number of whole copies of itself, scores
      1. */
  lemma CopiesScoreOne(payload1: seq<Byte>, n: nat)
    requires payload1 != [] && n >= 1
    ensures CalculateAccuracy(payload1, Tile(payload1, n)) == Fraction(1.0)
  {
    var p2 := Tile(payload1, n);
    var reference := TileTo(payload1, |p2|);
    forall i | 0 <= i < |p2|
      ensures reference[i] == p2[i]
    {
      TileAt(payload1, n, i);
    }
    assert reference == p2;
    PerfectAccuracy(payload1, p2);
  }
}
