/** Bit framing and fragment voting of the wavelet codec (stego/core/message.py): bytes to
    MSB-first bits and back with numpy's unpack/pack rules, and the choice of the most
    frequent NUL-separated fragment of a decoded buffer. */
module CoreMessage {
  import opened Common
  import opened Voting

  /** The value of a bit list read most significant bit first, as `np.packbits` reads it:
      every nonzero entry counts as a one. */
  function Horner(bits: seq<int>): (v: nat)
    ensures v < Pow2(|bits|)
  {
    if bits == [] then 0
    else 2 * Horner(bits[..|bits| - 1]) + (if bits[|bits| - 1] != 0 then 1 else 0)
  }

  /** Every entry is a 0 or a 1. */
  ghost predicate IsBits(bits: seq<int>) {
    forall i :: 0 <= i < |bits| ==> bits[i] == 0 || bits[i] == 1
  }

  /** The `n`-bit MSB-first binary expansion of `x`. */
  function ToBits(x: nat, n: nat): (bits: seq<int>)
    requires x < Pow2(n)
    ensures |bits| == n && IsBits(bits) && Horner(bits) == x
  {
    if n == 0 then []
    else
      var high := ToBits(x / 2, n - 1);
      HornerSnoc(high, x % 2);
      high + [x % 2]
  }

  /** One more bit on the right doubles the value and adds the bit. */
  lemma HornerSnoc(bits: seq<int>, b: int)
    requires b == 0 || b == 1
    ensures Horner(bits + [b]) == 2 * Horner(bits) + b
  {
    assert (bits + [b])[..|bits|] == bits;
  }

  /** Two 0/1 lists of one length with the same value are equal: the expansion is unique. */
  lemma {:induction false} HornerInjective(a: seq<int>, b: seq<int>)
    requires |a| == |b| && IsBits(a) && IsBits(b) && Horner(a) == Horner(b)
    ensures a == b
  {
    if a != [] {
      var n := |a|;
      HornerInjective(a[..n - 1], b[..n - 1]);
      assert a == a[..n - 1] + [a[n - 1]];
      assert b == b[..n - 1] + [b[n - 1]];
    }
  }

  /** `bytes_to_binary`: 8 bits per byte, most significant first (`np.unpackbits`). */
  function BytesToBinary(data: seq<Byte>): (bits: seq<int>)
    ensures |bits| == 8 * |data| && IsBits(bits)
  {
    if data == [] then [] else ToBits(data[0], 8) + BytesToBinary(data[1..])
  }

  /** Bits `8k..8k+8` of `bytes_to_binary` are the expansion of byte `k`. */
  lemma {:induction false} BytesToBinaryAt(data: seq<Byte>, k: nat)
    requires k < |data|
    ensures 8 * k + 8 <= |BytesToBinary(data)| && BytesToBinary(data)[8 * k .. 8 * k + 8] == ToBits(data[k], 8)
    decreases k
  {
    if k > 0 {
      BytesToBinaryAt(data[1..], k - 1);
      SliceOfSuffix(BytesToBinary(data), 8, 8 * (k - 1), 8 * (k - 1) + 8);
    }
  }

  /** One packed byte: the first 8 bits, a short list padded with zero bits on the right. */
  function PackByte(bits: seq<int>): (b: Byte)
    requires |bits| <= 8
    ensures b == Horner(bits) * Pow2(8 - |bits|)
  {
    HornerShift(bits, 8 - |bits|);
    Horner(bits + Repeat(0, 8 - |bits|))
  }

  /** Zero bits on the right shift the value left: `k` of them multiply it by `2 ** k`. */
  lemma {:induction false} HornerShift(bits: seq<int>, k: nat)
    ensures Horner(bits + Repeat(0, k)) == Horner(bits) * Pow2(k)
  {
    if k == 0 {
      assert bits + Repeat(0, 0) == bits;
      assert Pow2(0) == 1;
    } else {
      var shorter := bits + Repeat(0, k - 1);
      HornerShift(bits, k - 1);
      assert Repeat(0, k) == Repeat(0, k - 1) + [0];
      Regroup(bits, Repeat(0, k - 1), [0]);
      var longer := bits + Repeat(0, k);
      assert longer == shorter + [0];
      HornerSnoc(shorter, 0);
      DoubledProduct(Horner(longer), Horner(shorter), Horner(bits), Pow2(k - 1), Pow2(k));
    }
  }

  lemma DoubledProduct(a: int, b: int, h: int, p: int, q: int)
    requires a == 2 * b && b == h * p && q == 2 * p
    ensures a == h * q
  {
  }

  /** `binary_to_bytes` (`np.packbits`): groups of 8 bits MSB first, the last partial group
      padded with zeros, `ceil(n / 8)` bytes. */
  function BinaryToBytes(bits: seq<int>): (data: seq<Byte>)
    ensures |data| == (|bits| + 7) / 8
    decreases |bits|
  {
    if bits == [] then []
    else if |bits| < 8 then [PackByte(bits)]
    else [PackByte(bits[..8])] + BinaryToBytes(bits[8..])
  }

  /** Byte `k` of `binary_to_bytes` is the MSB-first value of bits `8k..8k+8`. */
  lemma {:induction false} BinaryToBytesAt(bits: seq<int>, k: nat)
    requires 8 * k + 8 <= |bits|
    ensures k < |BinaryToBytes(bits)| && BinaryToBytes(bits)[k] == Horner(bits[8 * k .. 8 * k + 8])
    decreases k
  {
    if k == 0 {
      assert bits[..8] + Repeat(0, 0) == bits[..8] == bits[0..8];
    } else {
      BinaryToBytesAt(bits[8..], k - 1);
      SliceOfSuffix(bits, 8, 8 * (k - 1), 8 * (k - 1) + 8);
    }
  }

  /** `binary_to_bytes(bytes_to_binary(b)) == b`. */
  lemma {:induction false} BinaryBytesRoundTrip(data: seq<Byte>)
    ensures BinaryToBytes(BytesToBinary(data)) == data
  {
    if data != [] {
      var bits := BytesToBinary(data);
      BinaryBytesRoundTrip(data[1..]);
      assert bits[..8] == ToBits(data[0], 8);
      assert bits[8..] == BytesToBinary(data[1..]);
      assert bits[..8] + Repeat(0, 0) == bits[..8];
    }
  }

  /** The other direction: unpacking what was packed from a whole number of 0/1 bytes gives
      the bits back. */
  lemma {:induction false} BytesBinaryRoundTrip(bits: seq<int>)
    requires IsBits(bits) && |bits| % 8 == 0
    ensures BytesToBinary(BinaryToBytes(bits)) == bits
    decreases |bits|
  {
    if bits != [] {
      MultipleStep(|bits|, 8);
      var data := BinaryToBytes(bits);
      assert bits[..8] + Repeat(0, 0) == bits[..8];
      HornerInjective(ToBits(data[0], 8), bits[..8]);
      BytesBinaryRoundTrip(bits[8..]);
      assert data[1..] == BinaryToBytes(bits[8..]);
      assert bits == bits[..8] + bits[8..];
    }
  }

  /** Bits that begin with the unpacked message pack to bytes that begin with the message,
      whatever bits follow. */
  lemma PackedPrefix(bits: seq<int>, message: seq<Byte>)
    requires 8 * |message| <= |bits| && bits[..8 * |message|] == BytesToBinary(message)
    ensures |message| <= |BinaryToBytes(bits)| && BinaryToBytes(bits)[..|message|] == message
  {
    var data := BinaryToBytes(bits);
    forall k | 0 <= k < |message|
      ensures data[k] == message[k]
    {
      PackedByte(bits, message, k);
    }
    SamePrefix(data, message);
  }

  lemma SamePrefix(a: seq<Byte>, b: seq<Byte>)
    requires |b| <= |a| && forall k :: 0 <= k < |b| ==> a[k] == b[k]
    ensures a[..|b|] == b
  {
  }

  lemma PackedByte(bits: seq<int>, message: seq<Byte>, k: nat)
    requires 8 * |message| <= |bits| && bits[..8 * |message|] == BytesToBinary(message)
    requires k < |message|
    ensures k < |BinaryToBytes(bits)| && BinaryToBytes(bits)[k] == message[k]
  {
    var n := 8 * |message|;
    var lo := 8 * k;
    assert lo + 8 <= n;
    var chunk := bits[lo .. lo + 8];
    assert chunk == bits[..n][lo .. lo + 8];
    BytesToBinaryAt(message, k);
    assert chunk == ToBits(message[k], 8);
    BinaryToBytesAt(bits, k);
  }

  /** Only zero versus nonzero matters to the packer. */
  lemma {:induction false} HornerNormalises(bits: seq<int>)
    ensures Horner(bits) == Horner(seq(|bits|, i requires 0 <= i < |bits| => if bits[i] != 0 then 1 else 0))
  {
    if bits != [] {
      var n := |bits|;
      var norm := seq(n, i requires 0 <= i < n => if bits[i] != 0 then 1 else 0);
      HornerNormalises(bits[..n - 1]);
      assert norm[..n - 1] == seq(n - 1, i requires 0 <= i < n - 1 => if bits[..n - 1][i] != 0 then 1 else 0);
    }
  }

  /** Trailing zero bits up to the next byte boundary change nothing: the last byte is padded
      with zeros anyway. */
  lemma {:induction false} BinaryToBytesPadded(bits: seq<int>)
    ensures BinaryToBytes(bits + Repeat(0, (8 - |bits| % 8) % 8)) == BinaryToBytes(bits)
    decreases |bits|
  {
    if |bits| >= 8 {
      BinaryToBytesPadded(bits[8..]);
      PaddedStep(bits);
    } else if bits != [] {
      PaddedShort(bits);
    } else {
      assert bits + Repeat(0, 0) == [];
    }
  }

  /** The step of the induction: padding after the first byte is padding of the whole. */
  lemma PaddedStep(bits: seq<int>)
    requires |bits| >= 8
    requires BinaryToBytes(bits[8..] + Repeat(0, (8 - |bits[8..]| % 8) % 8)) == BinaryToBytes(bits[8..])
    ensures BinaryToBytes(bits + Repeat(0, (8 - |bits| % 8) % 8)) == BinaryToBytes(bits)
  {
    PaddedTail(bits);
    PaddedLong(bits, bits + Repeat(0, (8 - |bits| % 8) % 8));
  }

  /** Past the first eight bits, `binary_to_bytes` is the first byte and the rest. */
  lemma BinaryToBytesFirst(bits: seq<int>)
    requires |bits| >= 8
    ensures BinaryToBytes(bits) == [PackByte(bits[..8])] + BinaryToBytes(bits[8..])
  {
  }

  /** Padding a sequence of at least eight bits pads what follows its first byte. */
  lemma PaddedTail(bits: seq<int>)
    requires |bits| >= 8
    ensures var padded := bits + Repeat(0, (8 - |bits| % 8) % 8);
      padded[..8] == bits[..8] && padded[8..] == bits[8..] + Repeat(0, (8 - |bits[8..]| % 8) % 8)
  {
    ModShift(|bits| - 8, 8);
  }

  /** Bits that agree on the first byte and pack alike after it pack alike. */
  lemma PaddedLong(bits: seq<int>, padded: seq<int>)
    requires 8 <= |bits| <= |padded| && padded[..8] == bits[..8]
    requires BinaryToBytes(padded[8..]) == BinaryToBytes(bits[8..])
    ensures BinaryToBytes(padded) == BinaryToBytes(bits)
  {
    BinaryToBytesFirst(bits);
    BinaryToBytesFirst(padded);
  }

  /** A single partial byte padded to eight bits packs to the same byte. */
  lemma PaddedShort(bits: seq<int>)
    requires 0 < |bits| < 8
    ensures BinaryToBytes(bits + Repeat(0, (8 - |bits| % 8) % 8)) == BinaryToBytes(bits)
  {
    DivModUnique(|bits|, 8, 0, |bits|);
    DivModUnique(8 - |bits|, 8, 0, 8 - |bits|);
    var padded := bits + Repeat(0, 8 - |bits|);
    assert bits + Repeat(0, (8 - |bits| % 8) % 8) == padded;
    PackPadded(bits);
    PackWholeByte(padded);
  }

  /** Padding a partial byte with zeros to eight bits does not change its value. */
  lemma PackPadded(bits: seq<int>)
    requires 0 < |bits| < 8
    ensures BinaryToBytes(bits) == [PackByte(bits + Repeat(0, 8 - |bits|))]
  {
    var padded := bits + Repeat(0, 8 - |bits|);
    assert padded + Repeat(0, 0) == padded;
  }

  /** Eight bits pack to one byte. */
  lemma PackWholeByte(bits: seq<int>)
    requires |bits| == 8
    ensures BinaryToBytes(bits) == [PackByte(bits)]
  {
    BinaryToBytesFirst(bits);
    assert bits[..8] == bits && bits[8..] == [];
  }

  /** `message.split(b"\x00")`: the maximal NUL-free pieces, so that an empty input gives one
      empty piece and every NUL separates two pieces. */
  function Split(s: seq<Byte>): (pieces: seq<seq<Byte>>)
    ensures |pieces| >= 1
    ensures forall i :: 0 <= i < |pieces| ==> 0 !in pieces[i]
  {
    if s == [] then [[]]
    else
      var t := Split(s[1..]);
      if s[0] == 0 then [[]] + t
      else [[s[0]] + t[0]] + t[1..]
  }

  /** `b"\x00".join(pieces)`. */
  function Join(pieces: seq<seq<Byte>>): seq<Byte>
    requires |pieces| >= 1
  {
    if |pieces| == 1 then pieces[0] else pieces[0] + [0] + Join(pieces[1..])
  }

  /** Joining the pieces gives the buffer back. */
  lemma {:induction false} JoinSplit(s: seq<Byte>)
    ensures Join(Split(s)) == s
  {
    if s != [] {
      JoinSplit(s[1..]);
      var t := Split(s[1..]);
      if s[0] != 0 {
        if |t| > 1 {
          assert Split(s)[1..] == t[1..];
        }
      }
    }
  }

  /** Splitting a join of NUL-free pieces gives the pieces back. */
  lemma {:induction false} SplitJoin(pieces: seq<seq<Byte>>)
    requires |pieces| >= 1 && forall i :: 0 <= i < |pieces| ==> 0 !in pieces[i]
    ensures Split(Join(pieces)) == pieces
    decreases |pieces|
  {
    if |pieces| == 1 {
      SplitNulFree(pieces[0]);
    } else {
      SplitJoin(pieces[1..]);
      SplitSep(pieces[0], Join(pieces[1..]));
      SplitNulFree(pieces[0]);
    }
  }

  /** A NUL-free buffer is one piece. */
  lemma {:induction false} SplitNulFree(s: seq<Byte>)
    requires 0 !in s
    ensures Split(s) == [s]
  {
    if s != [] {
      SplitNulFree(s[1..]);
      assert [s[0]] + s[1..] == s;
    }
  }

  /** A NUL between two buffers splits them apart. */
  lemma {:induction false} SplitSep(a: seq<Byte>, b: seq<Byte>)
    ensures Split(a + [0] + b) == Split(a) + Split(b)
  {
    if a == [] {
      assert a + [0] + b == [0] + b;
      assert ([0] + b)[1..] == b;
    } else {
      SplitSep(a[1..], b);
      assert (a + [0] + b)[1..] == a[1..] + [0] + b;
      assert (a + [0] + b)[0] == a[0];
      PieceThenRest(a[0], Split(a[1..]), Split(b));
    }
  }

  /** A byte joined to the first piece of a list of pieces and then more pieces. */
  lemma PieceThenRest(c: Byte, t: seq<seq<Byte>>, u: seq<seq<Byte>>)
    requires |t| >= 1
    ensures [[c] + (t + u)[0]] + (t + u)[1..] == ([[c] + t[0]] + t[1..]) + u
    ensures [[]] + (t + u) == ([[]] + t) + u
  {
    assert (t + u)[1..] == t[1..] + u;
  }

  /** The fragments the dict comprehension keeps: longer than 5 bytes, in split order. */
  function Qualifying(fragments: seq<seq<Byte>>): (q: seq<seq<Byte>>)
  {
    if fragments == [] then []
    else (if |fragments[0]| > 5 then [fragments[0]] else []) + Qualifying(fragments[1..])
  }

  /** The kept fragments are exactly the fragments longer than 5 bytes. */
  lemma {:induction false} QualifyingMembers(fragments: seq<seq<Byte>>)
    ensures forall f :: f in Qualifying(fragments) <==> f in fragments && |f| > 5
  {
    if fragments != [] {
      QualifyingMembers(fragments[1..]);
      assert fragments == [fragments[0]] + fragments[1..];
    }
  }

  /** A kept fragment has the same count in the kept list as in all fragments. */
  lemma {:induction false} QualifyingCount(fragments: seq<seq<Byte>>, f: seq<Byte>)
    requires |f| > 5
    ensures Count(Qualifying(fragments), f) == Count(fragments, f)
  {
    if fragments != [] {
      QualifyingCount(fragments[1..], f);
      var head := if |fragments[0]| > 5 then [fragments[0]] else [];
      var rest := Qualifying(fragments[1..]);
      assert fragments == [fragments[0]] + fragments[1..];
      assert multiset(head + rest) == multiset(head) + multiset(rest);
      assert multiset(head)[f] == multiset([fragments[0]])[f];
    }
  }

  /** Keeping the long fragments keeps their first-seen order. */
  lemma {:induction false} QualifyingOrder(fragments: seq<seq<Byte>>, a: seq<Byte>, b: seq<Byte>)
    requires a in fragments && b in fragments && |a| > 5 && |b| > 5
    requires FirstIndex(fragments, a) < FirstIndex(fragments, b)
    ensures a in Qualifying(fragments) && b in Qualifying(fragments)
    ensures FirstIndex(Qualifying(fragments), a) < FirstIndex(Qualifying(fragments), b)
  {
    QualifyingMembers(fragments);
    QualifyingMembers(fragments[1..]);
    var head := if |fragments[0]| > 5 then [fragments[0]] else [];
    var rest := Qualifying(fragments[1..]);
    assert Qualifying(fragments) == head + rest;
    assert b != fragments[0] && b in fragments[1..];
    if fragments[0] != a {
      assert a in fragments[1..];
      QualifyingOrder(fragments[1..], a, b);
      FirstIndexShift(head, rest, a);
      FirstIndexShift(head, rest, b);
    }
  }

  /** The vote over the kept fragments, read back on all fragments. */
  lemma {:induction false} VoteOnFragments(fragments: seq<seq<Byte>>, f: seq<Byte>)
    requires IsFirstMostFrequent(Qualifying(fragments), f)
    ensures f in fragments && |f| > 5
    ensures forall g :: g in fragments && |g| > 5 ==> Count(fragments, g) <= Count(fragments, f)
    ensures forall j :: 0 <= j < FirstIndex(fragments, f) && |fragments[j]| > 5 ==>
              Count(fragments, fragments[j]) < Count(fragments, f)
  {
    var q := Qualifying(fragments);
    QualifyingMembers(fragments);
    QualifyingCount(fragments, f);
    forall g | g in fragments && |g| > 5
      ensures Count(fragments, g) <= Count(fragments, f)
    {
      QualifyingCount(fragments, g);
      assert q[FirstIndex(q, g)] == g;
    }
    forall j | 0 <= j < FirstIndex(fragments, f) && |fragments[j]| > 5
      ensures Count(fragments, fragments[j]) < Count(fragments, f)
    {
      var g := fragments[j];
      FirstIndexAtMost(fragments, j);
      QualifyingOrder(fragments, g, f);
      QualifyingCount(fragments, g);
      assert q[FirstIndex(q, g)] == g;
    }
  }

  /** `extract_repeating_fragment`: the most frequent fragment longer than 5 bytes, the first
      seen among equally frequent ones; `None` where `max` of an empty dict raises. */
  function ExtractRepeatingFragment(message: seq<Byte>): (r: Option<seq<Byte>>)
    ensures r.None? <==> forall f :: f in Split(message) ==> |f| <= 5
    ensures r.Some? ==> r.value in Split(message) && |r.value| > 5 && 0 !in r.value
    ensures r.Some? ==> forall g :: g in Split(message) && |g| > 5 ==>
              Count(Split(message), g) <= Count(Split(message), r.value)
    ensures r.Some? ==> forall j :: 0 <= j < FirstIndex(Split(message), r.value) && |Split(message)[j]| > 5 ==>
              Count(Split(message), Split(message)[j]) < Count(Split(message), r.value)
  {
    var fragments := Split(message);
    var r := MostFrequent(Qualifying(fragments));
    QualifyingMembers(fragments);
    if r.Some? then
      VoteOnFragments(fragments, r.value);
      r
    else
      assert Qualifying(fragments) == [];
      r
  }
}
