/** The message side of the older coders (stego/image_coder.py): the per-position character
    vote `find_original_string` over several decoded copies of a message, the text splitter
    `split_list`, and `RobustStegoCoder.decode_band`, which in this file reads no block. The
    two classes `StegoCoder` and `RobustStegoCoder` carry identical copies of the first two. */
module LegacyImageCoder {
  import opened Common
  import opened Voting
  import opened CropBlocking

  /** `[string[i] for string in strings]`: the characters at position `i`. */
  function Column(strings: seq<string>, i: nat): (col: seq<char>)
    requires forall s :: s in strings ==> i < |s|
    ensures |col| == |strings| && forall j :: 0 <= j < |strings| ==> col[j] == strings[j][i]
  {
    seq(|strings|, j requires 0 <= j < |strings| => strings[j][i])
  }

  /** Every string is at least as long as the first, so every column the loop reads exists. */
  ghost predicate LongEnough(strings: seq<string>) {
    strings != [] && forall s :: s in strings ==> |strings[0]| <= |s|
  }

  /** `count.most_common(1)[0][0]` over column `i`: the first-seen character of highest
      count. */
  function Vote(strings: seq<string>, i: nat): (c: char)
    requires strings != [] && forall s :: s in strings ==> i < |s|
    ensures IsFirstMostFrequent(Column(strings, i), c)
  {
    MostFrequent(Column(strings, i)).value
  }

  /** `find_original_string`: `None` where Python raises `IndexError`, for an empty list or
      for a string shorter than the first; otherwise the vote at every position of the
      first string. */
  method FindOriginalString(strings: seq<string>) returns (result: Option<string>)
    ensures result.None? <==> !LongEnough(strings)
    ensures result.Some? ==> (|result.value| == |strings[0]| &&
      forall i :: 0 <= i < |strings[0]| ==> IsFirstMostFrequent(Column(strings, i), result.value[i]))
  {
    if strings == [] {
      return None;
    }
    var n := |strings[0]|;
    var chars := Repeat('-', n);
    for i := 0 to n
      invariant |chars| == n
      invariant forall s :: s in strings ==> i <= |s|
      invariant forall k :: 0 <= k < i ==> IsFirstMostFrequent(Column(strings, k), chars[k])
    {
      var short := exists j :: 0 <= j < |strings| && |strings[j]| <= i;
      if short {
        return None;
      }
      chars := chars[i := Vote(strings, i)];
    }
    return Some(chars);
  }

  /** The vote chooses exactly one character per position ... */
  lemma VoteUnique(strings: seq<string>, i: nat, c: char)
    requires strings != [] && forall s :: s in strings ==> i < |s|
    requires IsFirstMostFrequent(Column(strings, i), c)
    ensures c == Vote(strings, i)
  {
    FirstMostFrequentUnique(Column(strings, i), c, Vote(strings, i));
  }

  /** ... and where every copy agrees it is the copies' character. */
  lemma UnanimousPosition(strings: seq<string>, i: nat, c: char)
    requires strings != [] && forall s :: s in strings ==> i < |s| && s[i] == c
    ensures Vote(strings, i) == c
  {
    UnanimousVote(Column(strings, i), c);
  }

  /** So copies that all agree vote for the common message. */
  lemma UnanimousCopies(strings: seq<string>, msg: string, i: nat)
    requires strings != [] && (forall s :: s in strings ==> s == msg) && i < |msg|
    ensures Vote(strings, i) == msg[i]
  {
    UnanimousPosition(strings, i, msg[i]);
  }

  /** `split_list(arr, sublist_size)` on the decoded text: its padding `"" * k` appends
      nothing, so the chunks are consecutive slices of `sublist_size` characters, the last
      one possibly shorter, and together they are the text. */
  function SplitText(arr: string, size: nat): (chunks: seq<string>)
    requires size > 0
    ensures Concat(chunks) == arr
    ensures |chunks| == (|arr| + size - 1) / size
    ensures forall i :: 0 <= i < |chunks| ==> 0 < |chunks[i]| <= size
    ensures forall i :: 0 <= i && i + 1 < |chunks| ==> |chunks[i]| == size
  {
    var padded := if |arr| % size != 0 then arr + "" else arr;
    assert padded == arr;
    var chunks := Chunks(padded, size);
    var n := |chunks|;
    DivModUnique(|arr| + size - 1, size, n, |arr| + size - 1 - n * size);
    chunks
  }

  /** `RobustStegoCoder.decode_band` of stego/image_coder.py: the band is divided into 3 x 3
      blocks and every block is visited, but nothing is appended, so the result is always
      the empty list (`None` where `divide` fails). */
  method DecodeBand(band: seq<seq<real>>) returns (encoded: Option<seq<int>>)
    requires IsRect(band)
    ensures encoded.Some? <==> |band| >= 3 && Width(band) >= 3
    ensures encoded.Some? ==> encoded.value == []
  {
    var blocker := new CropBlocker(band);
    var divided := blocker.Divide(3);
    if divided.None? {
      return None;
    }
    var blocks := divided.value;
    var data: seq<int> := [];
    for j := 0 to |blocks|
      invariant data == []
    {
      for k := 0 to |blocks[j]|
        invariant data == []
      {
      }
    }
    return Some(data);
  }
}
