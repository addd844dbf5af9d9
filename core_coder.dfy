/** Capacity, dispatch and consolidation of the wavelet codec (stego/core/coder.py, lines
    86-179): how many bytes each coefficient plane carries, how `message + NUL` is repeated
    into per-plane parts, and how decoded parts are trimmed and joined. */
module CoreCapacity {
  import opened Common
  import opened Voting
  import opened CoreMessage

  /** Bits per byte (`BYTE`). */
  const ByteBits: nat := 8

  /** `(image_capacity, coefficient_capacity)` of `get_capacity`. */
  datatype Capacity = Capacity(image: nat, coefficient: nat)

  /** The side of one embedding block measured in image pixels: `block_size * 2**level`. */
  function InitialBlockSize(blockSize: nat, level: nat): (s: nat)
    requires blockSize > 0
    ensures s > 0
  {
    blockSize * Pow2(level)
  }

  /** `get_capacity`, evaluated left to right as Python does:
      `((height // S) * width // S) // 8` bytes per plane, times the number of planes. */
  function GetCapacity(height: nat, width: nat, blockSize: nat, level: nat, coefficients: nat): (c: Capacity)
    requires blockSize > 0
    ensures var s := InitialBlockSize(blockSize, level);
            var bits := (height / s) * width / s;
            c.coefficient * ByteBits <= bits < (c.coefficient + 1) * ByteBits
    ensures c.image == c.coefficient * coefficients
  {
    var coefficientCapacity := PlaneCapacity(height, width, InitialBlockSize(blockSize, level));
    Capacity(coefficientCapacity * coefficients, coefficientCapacity)
  }

  /** Bytes one plane carries for embedding blocks of side `s` pixels. */
  function PlaneCapacity(height: nat, width: nat, s: nat): nat
    requires s > 0
  {
    ((height / s) * width / s) / ByteBits
  }

  /** When `S` divides the width, a plane carries one bit per full block: its capacity is the
      block count `(h // S) * (w // S)` divided by 8. */
  lemma CapacityIsBlockCount(height: nat, width: nat, blockSize: nat, level: nat, coefficients: nat)
    requires blockSize > 0 && width % InitialBlockSize(blockSize, level) == 0
    ensures var s := InitialBlockSize(blockSize, level);
            GetCapacity(height, width, blockSize, level, coefficients).coefficient
              == ((height / s) * (width / s)) / ByteBits
  {
    var s := InitialBlockSize(blockSize, level);
    var q := width / s;
    FloorMultiple(width, s);
    assert (height / s) * width == ((height / s) * q) * s;
    MulDivExact((height / s) * q, s);
  }

  /** With the left-to-right grouping the capacity can exceed the block count when `S` does
      not divide the width: 192 x 18 pixels with `S = 12` gives 3 bytes (24 bits) for 16
      blocks. */
  lemma CapacityExceedsBlocks()
    ensures GetCapacity(192, 18, 3, 2, 1).coefficient == 3
    ensures (192 / InitialBlockSize(3, 2)) * (18 / InitialBlockSize(3, 2)) == 16
  {
    assert Pow2(2) == 4;
  }

  /** Capacity does not decrease with the image height or width. */
  lemma {:induction false} CapacityMonotoneInSize(h1: nat, w1: nat, h2: nat, w2: nat, blockSize: nat, level: nat, k: nat)
    requires blockSize > 0 && h1 <= h2 && w1 <= w2
    ensures GetCapacity(h1, w1, blockSize, level, k).coefficient <= GetCapacity(h2, w2, blockSize, level, k).coefficient
    ensures GetCapacity(h1, w1, blockSize, level, k).image <= GetCapacity(h2, w2, blockSize, level, k).image
  {
    var s := InitialBlockSize(blockSize, level);
    PlaneCapacityMono(h1, w1, h2, w2, s);
    MulMono(PlaneCapacity(h1, w1, s), PlaneCapacity(h2, w2, s), k);
  }

  /** A larger plane never carries less. */
  lemma PlaneCapacityMono(h1: nat, w1: nat, h2: nat, w2: nat, s: nat)
    requires s > 0 && h1 <= h2 && w1 <= w2
    ensures PlaneCapacity(h1, w1, s) <= PlaneCapacity(h2, w2, s)
  {
    DivMono(h1, h2, s);
    MulMono(h1 / s, h2 / s, w1);
    MulMono(w1, w2, h2 / s);
    DivMono((h1 / s) * w1, (h2 / s) * w2, s);
    DivMono((h1 / s) * w1 / s, (h2 / s) * w2 / s, ByteBits);
  }

  /** A larger block side never carries more. */
  lemma PlaneCapacityAntitone(height: nat, width: nat, s1: nat, s2: nat)
    requires 0 < s1 <= s2
    ensures PlaneCapacity(height, width, s2) <= PlaneCapacity(height, width, s1)
  {
    var a2, a1 := height / s2, height / s1;
    DivAntiMono(height, s1, s2);
    MulMono(0, a2, width);
    MulMono(a2, a1, width);
    var w2: nat, w1: nat := a2 * width, a1 * width;
    DivMono(w2, w1, s2);
    DivAntiMono(w1, s1, s2);
    DivMono(w2 / s2, w1 / s1, ByteBits);
  }

  /** The block side grows with the block size and with the level. */
  lemma InitialBlockSizeMono(b1: nat, l1: nat, b2: nat, l2: nat)
    requires 0 < b1 <= b2 && l1 <= l2
    ensures InitialBlockSize(b1, l1) <= InitialBlockSize(b2, l2)
  {
    Pow2Mono(l1, l2);
    MulMono(b1, b2, Pow2(l1));
    MulMono(Pow2(l1), Pow2(l2), b2);
  }

  /** Capacity does not increase with the block size or the decomposition level. */
  lemma CapacityAntitoneInBlock(height: nat, width: nat, b1: nat, l1: nat, b2: nat, l2: nat, k: nat)
    requires 0 < b1 <= b2 && l1 <= l2
    ensures GetCapacity(height, width, b2, l2, k).coefficient <= GetCapacity(height, width, b1, l1, k).coefficient
    ensures GetCapacity(height, width, b2, l2, k).image <= GetCapacity(height, width, b1, l1, k).image
  {
    InitialBlockSizeMono(b1, l1, b2, l2);
    PlaneCapacityAntitone(height, width, InitialBlockSize(b1, l1), InitialBlockSize(b2, l2));
    MulMono(GetCapacity(height, width, b2, l2, k).coefficient, GetCapacity(height, width, b1, l1, k).coefficient, k);
  }

  /** A dispatcher's outcome: the parts, or the `CapacityError` the source raises, carrying
      the capacity and the length of `message + NUL` its text reports. */
  datatype Dispatch = Parts(parts: seq<seq<Byte>>) | CapacityError(capacity: nat, length: nat)

  /** `message * fits + b"\x00" * remainder` with `fits, remainder = divmod(capacity, len(message))`. */
  function Padded(message: seq<Byte>, capacity: nat): (r: seq<Byte>)
    requires |message| > 0
    ensures |r| == capacity
  {
    var fits, remainder := capacity / |message|, capacity % |message|;
    Tile(message, fits) + Repeat(0, remainder)
  }

  /** `message_dispatcher`: `message + NUL` tiled over the whole image capacity and cut into
      pieces of `coefficient_capacity` bytes. */
  function MessageDispatcher(height: nat, width: nat, blockSize: nat, level: nat, coefficients: nat, message: seq<Byte>): (d: Dispatch)
    requires blockSize > 0
    ensures var cap := GetCapacity(height, width, blockSize, level, coefficients);
            d.CapacityError? <==> cap.image < |message| + 1
    ensures var cap := GetCapacity(height, width, blockSize, level, coefficients);
            d.CapacityError? ==> d == CapacityError(cap.image, |message| + 1)
    ensures var cap := GetCapacity(height, width, blockSize, level, coefficients);
            d.Parts? ==>
              Concat(d.parts) == Padded(message + [0], cap.image) &&
              |d.parts| == coefficients &&
              forall i :: 0 <= i < |d.parts| ==> |d.parts[i]| == cap.coefficient
  {
    var cap := GetCapacity(height, width, blockSize, level, coefficients);
    var m := message + [0];
    if cap.image < |m| then CapacityError(cap.image, |m|)
    else
      var newMessage := Padded(m, cap.image);
      assert cap.coefficient > 0;
      var parts := Chunks(newMessage, cap.coefficient);
      ChunksExact(newMessage, cap.coefficient, coefficients);
      Parts(parts)
  }

  /** `uniform_message_dispatcher`: one copy of `message + NUL` tiled over a single plane's
      capacity, repeated for every plane. */
  function UniformMessageDispatcher(height: nat, width: nat, blockSize: nat, level: nat, coefficients: nat, message: seq<Byte>): (d: Dispatch)
    requires blockSize > 0
    ensures var cap := GetCapacity(height, width, blockSize, level, coefficients);
            d.CapacityError? <==> cap.coefficient < |message| + 1
    ensures var cap := GetCapacity(height, width, blockSize, level, coefficients);
            d.CapacityError? ==> d == CapacityError(cap.coefficient, |message| + 1)
    ensures var cap := GetCapacity(height, width, blockSize, level, coefficients);
            d.Parts? ==>
              |d.parts| == coefficients &&
              forall i :: 0 <= i < |d.parts| ==>
                d.parts[i] == Padded(message + [0], cap.coefficient) &&
                |d.parts[i]| == cap.coefficient && d.parts[i][..|message| + 1] == message + [0]
  {
    var cap := GetCapacity(height, width, blockSize, level, coefficients);
    var m := message + [0];
    if cap.coefficient < |m| then CapacityError(cap.coefficient, |m|)
    else
      var padded := Padded(m, cap.coefficient);
      PaddedStartsWith(m, cap.coefficient);
      Parts(Repeat(padded, coefficients))
  }

  /** A capacity of at least one copy starts with that copy. */
  lemma PaddedStartsWith(m: seq<Byte>, capacity: nat)
    requires 0 < |m| <= capacity
    ensures Padded(m, capacity)[..|m|] == m
  {
    AtLeastOne(capacity, |m|);
    var fits := capacity / |m|;
    assert Tile(m, fits) == m + Tile(m, fits - 1);
  }

  /** `message_consolidator`: every part cut to `coefficient_capacity` bytes, joined in order. */
  function MessageConsolidator(parts: seq<seq<Byte>>, coefficientCapacity: nat): (joined: seq<Byte>)
    ensures |joined| <= |parts| * coefficientCapacity
    ensures (forall i :: 0 <= i < |parts| ==> |parts[i]| >= coefficientCapacity) ==>
              |joined| == |parts| * coefficientCapacity
  {
    TrimmedLength(parts, coefficientCapacity);
    Concat(Trimmed(parts, coefficientCapacity))
  }

  /** The trimmed parts together hold at most `n` bytes per part, and exactly `n` when no part
      is shorter. */
  lemma TrimmedLength(parts: seq<seq<Byte>>, n: nat)
    ensures |Concat(Trimmed(parts, n))| <= |parts| * n
    ensures (forall i :: 0 <= i < |parts| ==> |parts[i]| >= n) ==> |Concat(Trimmed(parts, n))| == |parts| * n
  {
    var t := Trimmed(parts, n);
    ConcatBoundedLength(t, n);
    if forall i :: 0 <= i < |parts| ==> |parts[i]| >= n {
      assert forall i :: 0 <= i < |t| ==> |t[i]| == n;
      ConcatUniformLength(t, n);
    }
  }

  /** When every part has at least `n` bytes, byte `j` of segment `i` of the consolidated
      buffer is byte `j` of part `i`. */
  lemma ConsolidatedAt(parts: seq<seq<Byte>>, n: nat, i: nat, j: nat)
    requires forall k :: 0 <= k < |parts| ==> |parts[k]| >= n
    requires i < |parts| && j < n
    ensures i * n + j < |MessageConsolidator(parts, n)|
    ensures MessageConsolidator(parts, n)[i * n + j] == parts[i][j]
  {
    var t := Trimmed(parts, n);
    assert forall k :: 0 <= k < |t| ==> |t[k]| == n;
    ConcatUniformAt(t, n, i, j);
    assert t[i][j] == parts[i][j];
  }

  /** `[part[:n] for part in parts]`. */
  function Trimmed(parts: seq<seq<Byte>>, n: nat): (r: seq<seq<Byte>>)
    ensures |r| == |parts|
    ensures forall i :: 0 <= i < |r| ==> r[i] <= parts[i] && |r[i]| <= n && (|r[i]| < n ==> r[i] == parts[i])
  {
    seq(|parts|, i requires 0 <= i < |parts| => parts[i][..if |parts[i]| < n then |parts[i]| else n])
  }

  /** Trimming parts that already have the target length changes nothing. */
  lemma TrimmedFull(parts: seq<seq<Byte>>, n: nat)
    requires forall i :: 0 <= i < |parts| ==> |parts[i]| == n
    ensures Trimmed(parts, n) == parts
  {
    assert forall i :: 0 <= i < |parts| ==> parts[i][..n] == parts[i];
  }

  /** Consolidation is a left inverse of the full-capacity dispatcher: it gives back the tiled
      buffer itself. */
  lemma ConsolidateDispatch(height: nat, width: nat, blockSize: nat, level: nat, coefficients: nat, message: seq<Byte>)
    requires blockSize > 0
    requires MessageDispatcher(height, width, blockSize, level, coefficients, message).Parts?
    ensures var cap := GetCapacity(height, width, blockSize, level, coefficients);
            MessageConsolidator(MessageDispatcher(height, width, blockSize, level, coefficients, message).parts, cap.coefficient)
              == Padded(message + [0], cap.image)
  {
    var cap := GetCapacity(height, width, blockSize, level, coefficients);
    var parts := MessageDispatcher(height, width, blockSize, level, coefficients, message).parts;
    TrimmedFull(parts, cap.coefficient);
  }

  /** Consolidating the uniform parts gives one plane's buffer per plane, one after another. */
  lemma ConsolidateUniform(height: nat, width: nat, blockSize: nat, level: nat, coefficients: nat, message: seq<Byte>)
    requires blockSize > 0
    requires UniformMessageDispatcher(height, width, blockSize, level, coefficients, message).Parts?
    ensures var cap := GetCapacity(height, width, blockSize, level, coefficients);
            MessageConsolidator(UniformMessageDispatcher(height, width, blockSize, level, coefficients, message).parts, cap.coefficient)
              == Concat(Repeat(Padded(message + [0], cap.coefficient), coefficients))
  {
    var cap := GetCapacity(height, width, blockSize, level, coefficients);
    var parts := UniformMessageDispatcher(height, width, blockSize, level, coefficients, message).parts;
    TrimmedFull(parts, cap.coefficient);
  }

  /** Every copy of `message + NUL` in a tiled buffer is one fragment. */
  lemma {:induction false} SplitTile(m: seq<Byte>, n: nat, rest: seq<Byte>)
    requires 0 !in m
    ensures Split(Tile(m + [0], n) + rest) == Repeat(m, n) + Split(rest)
  {
    if n > 0 {
      var x := Tile(m + [0], n - 1) + rest;
      Regroup(m + [0], Tile(m + [0], n - 1), rest);
      assert Tile(m + [0], n) + rest == m + [0] + x;
      SplitSep(m, x);
      SplitNulFree(m);
      SplitTile(m, n - 1, rest);
      assert [m] + Repeat(m, n - 1) == Repeat(m, n);
      Regroup([m], Repeat(m, n - 1), Split(rest));
    } else {
      assert Tile(m + [0], 0) + rest == rest;
    }
  }

  /** Every NUL of the padding ends one empty fragment. */
  lemma {:induction false} SplitZeros(r: nat, rest: seq<Byte>)
    ensures Split(Repeat(0, r) + rest) == Repeat([], r) + Split(rest)
  {
    if r > 0 {
      var x := Repeat(0, r - 1) + rest;
      assert Repeat(0, r) + rest == [] + [0] + x;
      SplitSep([], x);
      SplitZeros(r - 1, rest);
      assert [[]] + Repeat<seq<Byte>>([], r - 1) == Repeat<seq<Byte>>([], r);
    } else {
      assert Repeat(0, 0) + rest == rest;
    }
  }

  lemma {:induction false} QualifyingAppend(a: seq<seq<Byte>>, b: seq<seq<Byte>>)
    ensures Qualifying(a + b) == Qualifying(a) + Qualifying(b)
  {
    if a != [] {
      var kept := if |a[0]| > 5 then [a[0]] else [];
      assert (a + b)[0] == a[0] && (a + b)[1..] == a[1..] + b;
      assert Qualifying(a + b) == kept + Qualifying(a[1..] + b);
      QualifyingAppend(a[1..], b);
      Regroup(kept, Qualifying(a[1..]), Qualifying(b));
    } else {
      assert a + b == b;
    }
  }

  /** A fragment of more than 5 bytes is kept every time, an empty one never. */
  lemma {:induction false} QualifyingRepeat(m: seq<Byte>, n: nat)
    ensures Qualifying(Repeat(m, n)) == if |m| > 5 then Repeat(m, n) else []
  {
    if n > 0 {
      assert Repeat(m, n)[1..] == Repeat(m, n - 1);
      QualifyingRepeat(m, n - 1);
      assert [m] + Repeat(m, n - 1) == Repeat(m, n);
    }
  }

  /** The fragments of a dispatched buffer followed by anything: one copy of the message per
      whole fit, one empty fragment per padding NUL, then those of what follows. */
  lemma SplitPadded(m: seq<Byte>, capacity: nat, rest: seq<Byte>)
    requires 0 !in m && |m| + 1 <= capacity
    ensures Split(Padded(m + [0], capacity) + rest)
              == Repeat(m, capacity / (|m| + 1)) + (Repeat<seq<Byte>>([], capacity % (|m| + 1)) + Split(rest))
  {
    var fits, remainder := capacity / (|m| + 1), capacity % (|m| + 1);
    var tail := Repeat(0, remainder) + rest;
    assert Padded(m + [0], capacity) + rest == Tile(m + [0], fits) + tail;
    SplitTile(m, fits, tail);
    SplitZeros(remainder, rest);
  }

  /** ... of which the vote keeps the copies of the message, if it is long enough, and the
      kept fragments of what follows. */
  lemma QualifyingPadded(m: seq<Byte>, capacity: nat, rest: seq<Byte>)
    requires 0 !in m && |m| + 1 <= capacity
    ensures Qualifying(Split(Padded(m + [0], capacity) + rest))
              == (if |m| > 5 then Repeat(m, capacity / (|m| + 1)) else []) + Qualifying(Split(rest))
  {
    SplitPadded(m, capacity, rest);
    QualifyingCopies(m, capacity / (|m| + 1), capacity % (|m| + 1), Split(rest));
  }

  /** The vote keeps `q` copies of `m` when `m` is long enough, drops the `k` empty fields,
      and keeps what it keeps of the rest. */
  lemma QualifyingCopies(m: seq<Byte>, q: nat, k: nat, r: seq<seq<Byte>>)
    ensures Qualifying(Repeat(m, q) + (Repeat<seq<Byte>>([], k) + r))
              == (if |m| > 5 then Repeat(m, q) else []) + Qualifying(r)
  {
    var a, z := Repeat(m, q), Repeat<seq<Byte>>([], k);
    QualifyingAppend(a, z + r);
    QualifyingAppend(z, r);
    QualifyingRepeat(m, q);
    QualifyingRepeat([], k);
  }

  /** Decoding the full-capacity dispatcher's parts without bit errors: the vote returns the
      message when it is NUL-free and longer than 5 bytes ... */
  lemma DispatchVoteRecovers(height: nat, width: nat, blockSize: nat, level: nat, coefficients: nat, message: seq<Byte>)
    requires blockSize > 0 && 0 !in message && |message| > 5
    requires MessageDispatcher(height, width, blockSize, level, coefficients, message).Parts?
    ensures var cap := GetCapacity(height, width, blockSize, level, coefficients);
            ExtractRepeatingFragment(MessageConsolidator(
              MessageDispatcher(height, width, blockSize, level, coefficients, message).parts, cap.coefficient))
              == Some(message)
  {
    var cap := GetCapacity(height, width, blockSize, level, coefficients);
    ConsolidateDispatch(height, width, blockSize, level, coefficients, message);
    var buffer := Padded(message + [0], cap.image);
    assert buffer + [] == buffer;
    QualifyingPadded(message, cap.image, []);
    AtLeastOne(cap.image, |message| + 1);
    assert Qualifying(Split([])) == [];
    UnanimousVote(Qualifying(Split(buffer)), message);
  }

  /** ... and nothing when the message has at most 5 bytes. */
  lemma DispatchVoteDropsShort(height: nat, width: nat, blockSize: nat, level: nat, coefficients: nat, message: seq<Byte>)
    requires blockSize > 0 && 0 !in message && |message| <= 5
    requires MessageDispatcher(height, width, blockSize, level, coefficients, message).Parts?
    ensures var cap := GetCapacity(height, width, blockSize, level, coefficients);
            ExtractRepeatingFragment(MessageConsolidator(
              MessageDispatcher(height, width, blockSize, level, coefficients, message).parts, cap.coefficient))
              == None
  {
    var cap := GetCapacity(height, width, blockSize, level, coefficients);
    ConsolidateDispatch(height, width, blockSize, level, coefficients, message);
    var buffer := Padded(message + [0], cap.image);
    assert buffer + [] == buffer;
    QualifyingPadded(message, cap.image, []);
    assert Qualifying(Split([])) == [];
  }

  /** The kept fragments of `k` copies of a plane's buffer are copies of the message only. */
  lemma {:induction false} QualifyingUniform(m: seq<Byte>, capacity: nat, k: nat)
    requires 0 !in m && 5 < |m| && |m| + 1 <= capacity
    ensures Qualifying(Split(Concat(Repeat(Padded(m + [0], capacity), k)))) == Repeat(m, (capacity / (|m| + 1)) * k)
  {
    if k == 0 {
      assert Qualifying(Split([])) == [];
    } else {
      var fits := capacity / (|m| + 1);
      QualifyingUniform(m, capacity, k - 1);
      QualifyingUniformStep(m, capacity, k, fits * (k - 1));
      assert fits + fits * (k - 1) == fits * k;
    }
  }

  /** One more copy of the buffer keeps `capacity / (|m| + 1)` more copies of the message. */
  lemma QualifyingUniformStep(m: seq<Byte>, capacity: nat, k: nat, n: nat)
    requires 0 !in m && 5 < |m| && |m| + 1 <= capacity && k > 0
    requires Qualifying(Split(Concat(Repeat(Padded(m + [0], capacity), k - 1)))) == Repeat(m, n)
    ensures Qualifying(Split(Concat(Repeat(Padded(m + [0], capacity), k))))
              == Repeat(m, capacity / (|m| + 1) + n)
  {
    var p := Padded(m + [0], capacity);
    var rest := Concat(Repeat(p, k - 1));
    ConcatRepeatFirst(p, k);
    QualifyingPadded(m, capacity, rest);
    RepeatAdd(m, capacity / (|m| + 1), n);
  }

  /** `k` copies of a buffer are the buffer followed by `k - 1` copies. */
  lemma ConcatRepeatFirst<T>(p: seq<T>, k: nat)
    requires k > 0
    ensures Concat(Repeat(p, k)) == p + Concat(Repeat(p, k - 1))
  {
    assert Repeat(p, k) == [p] + Repeat(p, k - 1);
  }

  lemma RepeatAdd<T>(x: T, a: nat, b: nat)
    ensures Repeat(x, a) + Repeat(x, b) == Repeat(x, a + b)
  {
  }

  /** Decoding the uniform dispatcher's parts without bit errors returns the message when it
      is NUL-free and longer than 5 bytes and there is at least one plane. */
  lemma UniformVoteRecovers(height: nat, width: nat, blockSize: nat, level: nat, coefficients: nat, message: seq<Byte>)
    requires blockSize > 0 && 0 !in message && |message| > 5 && coefficients > 0
    requires UniformMessageDispatcher(height, width, blockSize, level, coefficients, message).Parts?
    ensures var cap := GetCapacity(height, width, blockSize, level, coefficients);
            ExtractRepeatingFragment(MessageConsolidator(
              UniformMessageDispatcher(height, width, blockSize, level, coefficients, message).parts, cap.coefficient))
              == Some(message)
  {
    var cap := GetCapacity(height, width, blockSize, level, coefficients);
    ConsolidateUniform(height, width, blockSize, level, coefficients, message);
    QualifyingUniform(message, cap.coefficient, coefficients);
    AtLeastOne(cap.coefficient, |message| + 1);
    MulMono(1, cap.coefficient / (|message| + 1), coefficients);
    UnanimousVote(Repeat(message, (cap.coefficient / (|message| + 1)) * coefficients), message);
  }
}
