/** The reversible integer 5/3 lifting wavelet of stego/transform/iwt.py, the filter of
    JPEG 2000 (ISO/IEC 15444-1, Annex F): a signal of even length splits into its even and
    odd samples, a predict step turns the odd samples into details and an update step turns
    the even samples into the smooth part. `np.floor` of a half or a quarter of an integer
    is floor division, which Dafny's `/` is for a positive divisor. */
module Iwt {
  import opened Common

  /** `c[0::2]`. */
  function Evens(c: seq<int>): (s: seq<int>)
    ensures |s| == (|c| + 1) / 2
  {
    seq((|c| + 1) / 2, n requires 0 <= n < (|c| + 1) / 2 => c[2 * n])
  }

  /** `c[1::2]`. */
  function Odds(c: seq<int>): (d: seq<int>)
    ensures |d| == |c| / 2
  {
    seq(|c| / 2, n requires 0 <= n < |c| / 2 => c[2 * n + 1])
  }

  /** The predict step: every odd sample less the floor of the mean of its two even
      neighbours, the last one less its left neighbour only (the symmetric extension at the
      right edge). */
  function Predict(s: seq<int>, d: seq<int>): (r: seq<int>)
    requires |s| == |d| >= 1
    ensures |r| == |d|
  {
    var l := |s|;
    seq(l, n requires 0 <= n < l => if n < l - 1 then d[n] - (s[n] + s[n + 1]) / 2 else d[n] - s[n])
  }

  /** The update step: every even sample plus a rounded quarter of its two neighbouring
      details, the first one plus a rounded half of the first detail (the extension at the
      left edge). */
  function Update(s: seq<int>, d: seq<int>): (r: seq<int>)
    requires |s| == |d| >= 1
    ensures |r| == |s|
  {
    var l := |s|;
    seq(l, n requires 0 <= n < l => if n == 0 then s[0] + (d[0] + 1) / 2 else s[n] + (d[n - 1] + d[n] + 2) / 4)
  }

  /** The update step undone: the same rounded terms taken off. */
  function Unupdate(s: seq<int>, d: seq<int>): (r: seq<int>)
    requires |s| == |d| >= 1
    ensures |r| == |s|
  {
    var l := |s|;
    seq(l, n requires 0 <= n < l => if n == 0 then s[0] - (d[0] + 1) / 2 else s[n] - (d[n - 1] + d[n] + 2) / 4)
  }

  /** The predict step undone: the same floor of the neighbours' mean added back. */
  function Unpredict(s: seq<int>, d: seq<int>): (r: seq<int>)
    requires |s| == |d| >= 1
    ensures |r| == |d|
  {
    var l := |s|;
    seq(l, n requires 0 <= n < l => if n < l - 1 then d[n] + (s[n] + s[n + 1]) / 2 else d[n] + s[n])
  }

  /** `np.column_stack((s, d)).ravel()`: `s0, d0, s1, d1, ...`. */
  function Interleave(s: seq<int>, d: seq<int>): (c: seq<int>)
    requires |s| == |d|
    ensures |c| == 2 * |s|
  {
    seq(2 * |s|, i requires 0 <= i < 2 * |s| => if i % 2 == 0 then s[i / 2] else d[i / 2])
  }

  /** `iwt53(c)`: the smooth part and the details; `None` where numpy raises `IndexError`
      (`d[l-1]` of an odd-length or empty signal). */
  function Iwt53(c: seq<int>): (r: Option<(seq<int>, seq<int>)>)
    ensures r.Some? <==> |c| % 2 == 0 && |c| >= 2
    ensures r.Some? ==> |r.value.0| == |r.value.1| == |c| / 2
  {
    if |c| % 2 == 1 || |c| == 0 then None
    else
      var s, d := Evens(c), Odds(c);
      var details := Predict(s, d);
      Some((Update(s, details), details))
  }

  /** `iiwt53(s, d)`: the update undone, then the predict step, then the halves interleaved;
      `None` where numpy raises `IndexError` for empty halves. */
  function Iiwt53(s: seq<int>, d: seq<int>): (c: Option<seq<int>>)
    requires |s| == |d|
    ensures c.Some? <==> |s| >= 1
    ensures c.Some? ==> |c.value| == 2 * |s|
  {
    if |s| == 0 then None
    else
      var evens := Unupdate(s, d);
      Some(Interleave(evens, Unpredict(evens, d)))
  }

  /** The details and the smooth part in terms of the signal, as the lifting equations state
      them. */
  lemma Iwt53Equations(c: seq<int>)
    requires |c| % 2 == 0 && |c| >= 2
    ensures var (s, d) := Iwt53(c).value; var l := |c| / 2;
      (forall n :: 0 <= n < l - 1 ==> d[n] == c[2 * n + 1] - (c[2 * n] + c[2 * n + 2]) / 2) &&
      d[l - 1] == c[2 * l - 1] - c[2 * l - 2] &&
      s[0] == c[0] + (d[0] + 1) / 2 &&
      (forall n :: 1 <= n < l ==> s[n] == c[2 * n] + (d[n - 1] + d[n] + 2) / 4)
  {
    var l := |c| / 2;
    assert 2 * (l - 1) + 1 == 2 * l - 1;
  }

  /** Entries `2n` and `2n + 1` of an interleaving are entry `n` of each half. */
  lemma InterleaveAt(s: seq<int>, d: seq<int>, n: nat)
    requires |s| == |d| && n < |s|
    ensures 2 * n + 1 < |Interleave(s, d)|
    ensures Interleave(s, d)[2 * n] == s[n] && Interleave(s, d)[2 * n + 1] == d[n]
  {
    assert (2 * n) / 2 == n && (2 * n) % 2 == 0;
    assert (2 * n + 1) / 2 == n && (2 * n + 1) % 2 == 1;
  }

  /** The inverse in terms of its output: the even samples are the smooth part less the
      rounded update, the odd samples the details plus the floor of the mean of their even
      neighbours, the last one plus its left neighbour. */
  lemma Iiwt53Equations(s: seq<int>, d: seq<int>)
    requires |s| == |d| >= 1
    ensures var c := Iiwt53(s, d).value; var l := |s|;
      c[0] == s[0] - (d[0] + 1) / 2 &&
      (forall n :: 1 <= n < l ==> c[2 * n] == s[n] - (d[n - 1] + d[n] + 2) / 4) &&
      (forall n :: 0 <= n < l - 1 ==> c[2 * n + 1] == d[n] + (c[2 * n] + c[2 * n + 2]) / 2) &&
      c[2 * l - 1] == d[l - 1] + c[2 * l - 2]
  {
    var l := |s|;
    var c := Iiwt53(s, d).value;
    IiwtEven(s, d, 0);
    forall n | 1 <= n < l
      ensures c[2 * n] == s[n] - (d[n - 1] + d[n] + 2) / 4
    {
      IiwtEven(s, d, n);
    }
    forall n | 0 <= n < l - 1
      ensures c[2 * n + 1] == d[n] + (c[2 * n] + c[2 * n + 2]) / 2
    {
      IiwtOdd(s, d, n);
    }
    IiwtOdd(s, d, l - 1);
    assert 2 * (l - 1) + 1 == 2 * l - 1 && 2 * (l - 1) == 2 * l - 2;
  }

  /** Sample `2n` of the inverse: the update undone. */
  lemma IiwtEven(s: seq<int>, d: seq<int>, n: nat)
    requires |s| == |d| >= 1 && n < |s|
    ensures 2 * n < |Iiwt53(s, d).value|
    ensures Iiwt53(s, d).value[2 * n] == Unupdate(s, d)[n]
    ensures Unupdate(s, d)[n] == if n == 0 then s[0] - (d[0] + 1) / 2 else s[n] - (d[n - 1] + d[n] + 2) / 4
  {
    InterleaveAt(Unupdate(s, d), Unpredict(Unupdate(s, d), d), n);
  }

  /** Sample `2n + 1` of the inverse: the predict step undone on the even samples. */
  lemma IiwtOdd(s: seq<int>, d: seq<int>, n: nat)
    requires |s| == |d| >= 1 && n < |s|
    ensures 2 * n + 1 < |Iiwt53(s, d).value|
    ensures var c := Iiwt53(s, d).value;
      if n < |s| - 1 then 2 * n + 2 < |c| && c[2 * n + 1] == d[n] + (c[2 * n] + c[2 * n + 2]) / 2
      else c[2 * n + 1] == d[n] + c[2 * n]
  {
    var evens := Unupdate(s, d);
    var odds := Unpredict(evens, d);
    var c := Iiwt53(s, d).value;
    assert c == Interleave(evens, odds);
    InterleaveAt(evens, odds, n);
    if n < |s| - 1 {
      InterleaveAt(evens, odds, n + 1);
      assert 2 * (n + 1) == 2 * n + 2;
      assert odds[n] == d[n] + (evens[n] + evens[n + 1]) / 2;
    } else {
      assert odds[n] == d[n] + evens[n];
    }
  }

  /** Perfect reconstruction: `iiwt53(*iwt53(c)) == c` for every integer signal of even
      length. */
  lemma PerfectReconstruction(c: seq<int>)
    requires |c| % 2 == 0 && |c| >= 2
    ensures Iiwt53(Iwt53(c).value.0, Iwt53(c).value.1) == Some(c)
  {
    var s, d := Evens(c), Odds(c);
    Unlift(s, d);
    HalvesInterleave(c);
  }

  /** Splitting an interleaving gives the two halves back ... */
  lemma InterleaveHalves(s: seq<int>, d: seq<int>)
    requires |s| == |d|
    ensures Evens(Interleave(s, d)) == s && Odds(Interleave(s, d)) == d
  {
  }

  /** ... and interleaving the halves of an even-length signal gives the signal. */
  lemma HalvesInterleave(c: seq<int>)
    requires |c| % 2 == 0
    ensures Interleave(Evens(c), Odds(c)) == c
  {
    var r := Interleave(Evens(c), Odds(c));
    forall i | 0 <= i < |c|
      ensures r[i] == c[i]
    {
      HalvesInterleaveAt(c, i);
    }
  }

  lemma HalvesInterleaveAt(c: seq<int>, i: nat)
    requires |c| % 2 == 0 && i < |c|
    ensures |Interleave(Evens(c), Odds(c))| == |c| && Interleave(Evens(c), Odds(c))[i] == c[i]
  {
    var s, d := Evens(c), Odds(c);
    var n := i / 2;
    assert |s| == |d| == |c| / 2 && n < |s|;
    if i % 2 == 0 {
      assert 2 * n == i;
      assert Interleave(s, d)[i] == s[n] == c[2 * n];
    } else {
      assert 2 * n + 1 == i;
      assert Interleave(s, d)[i] == d[n] == c[2 * n + 1];
    }
  }

  /** The two lifting steps undone in reverse order give back both halves. */
  lemma Unlift(s: seq<int>, d: seq<int>)
    requires |s| == |d| >= 1
    ensures Unupdate(Update(s, Predict(s, d)), Predict(s, d)) == s
    ensures Unpredict(s, Predict(s, d)) == d
  {
    var details := Predict(s, d);
    var smooth := Update(s, details);
    var back := Unupdate(smooth, details);
    forall n | 0 <= n < |s|
      ensures back[n] == s[n]
    {
      if n == 0 {
        assert smooth[0] == s[0] + (details[0] + 1) / 2;
      } else {
        assert smooth[n] == s[n] + (details[n - 1] + details[n] + 2) / 4;
      }
    }
    var odd := Unpredict(s, details);
    forall n | 0 <= n < |s|
      ensures odd[n] == d[n]
    {
      if n < |s| - 1 {
        assert details[n] == d[n] - (s[n] + s[n + 1]) / 2;
      } else {
        assert details[n] == d[n] - s[n];
      }
    }
  }

  /** The other direction: every pair of equal-length halves is the transform of the signal
      `iiwt53` builds from it, so the transform is a bijection between even-length signals
      and such pairs. */
  lemma InverseThenForward(s: seq<int>, d: seq<int>)
    requires |s| == |d| >= 1
    ensures Iwt53(Iiwt53(s, d).value) == Some((s, d))
  {
    var evens := Unupdate(s, d);
    var odds := Unpredict(evens, d);
    var c := Interleave(evens, odds);
    InterleaveHalves(evens, odds);
    var p := Predict(evens, odds);
    forall n | 0 <= n < |s|
      ensures p[n] == d[n]
    {
      if n < |s| - 1 {
        assert odds[n] == d[n] + (evens[n] + evens[n + 1]) / 2;
      } else {
        assert odds[n] == d[n] + evens[n];
      }
    }
    var u := Update(evens, d);
    forall n | 0 <= n < |s|
      ensures u[n] == s[n]
    {
      if n == 0 {
        assert evens[0] == s[0] - (d[0] + 1) / 2;
      } else {
        assert evens[n] == s[n] - (d[n - 1] + d[n] + 2) / 4;
      }
    }
    assert p == d && u == s;
  }
}
