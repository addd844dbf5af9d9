/** Digit framing of the perimeter coder (stego/coder/message.py): a byte becomes four base-4
    digits, most significant pair first; digit lists are cut into chunks by a splitter that
    pads with zeros only when the length is not already a multiple; `Base4MessageCoder`
    frames a message as a flat digit list and `Base2MessageCoder` as a flat bit list. Text
    is modelled by its UTF-8 bytes. */
module CoderMessage {
  import opened Common
  import opened CoreMessage

  /** `byte_to_dec_array`: the byte's four two-bit pairs, most significant first. For a
      value in 0..255, `(b & 0xC0) >> 6` is `b / 64`, `(b & 0x30) >> 4` is `b % 64 / 16`,
      `(b & 0x0C) >> 2` is `b % 16 / 4` and `b & 0x03` is `b % 4`. */
  function ByteToDecArray(b: Byte): (d: seq<nat>)
    ensures |d| == 4 && forall i :: 0 <= i < 4 ==> d[i] < 4
    ensures b == 64 * d[0] + 16 * d[1] + 4 * d[2] + d[3]
  {
    var low6 := b % 64;
    var low4 := low6 % 16;
    assert low4 == b % 16 && low4 % 4 == b % 4 by {
      DivModUnique(b, 16, 4 * (b / 64) + low6 / 16, low4);
      DivModUnique(b, 4, 16 * (b / 64) + 4 * (low6 / 16) + low4 / 4, low4 % 4);
    }
    [b / 64, low6 / 16, low4 / 4, low4 % 4]
  }

  /** Python's `|` on natural numbers, bit by bit. */
  function BitOr(a: nat, b: nat): nat
    decreases a + b
  {
    if a == 0 then b
    else if b == 0 then a
    else 2 * BitOr(a / 2, b / 2) + (if a % 2 == 1 || b % 2 == 1 then 1 else 0)
  }

  /** OR-ing a value below `2^k` into a multiple of `2^k` adds it. */
  lemma {:induction false} BitOrLow(x: nat, b: nat, k: nat)
    requires x % Pow2(k) == 0 && b < Pow2(k)
    ensures BitOr(x, b) == x + b
    decreases k
  {
    if k > 0 && x != 0 && b != 0 {
      var p := Pow2(k - 1);
      var m := x / Pow2(k);
      assert x == m * (2 * p);
      assert x == 2 * (m * p);
      MulDivExact(m, p);
      BitOrLow(x / 2, b / 2, k - 1);
    } else if k == 0 {
      assert b == 0;
    }
  }

  /** `dec_array_to_byte`: the first four entries shifted left by 6, 4, 2 and 0 bits
      (multiplied by 64, 16, 4 and 1) and OR-ed into an accumulator that starts at 0. */
  function DecArrayToByte(d: seq<nat>): nat
    requires |d| >= 4
  {
    BitOr(BitOr(BitOr(BitOr(0, d[0] * 64), d[1] * 16), d[2] * 4), d[3])
  }

  /** For base-4 digits the OR is a sum, so the result is the byte `d0 d1 d2 d3` and lies in
      0..255. */
  lemma DecArrayOfDigits(d: seq<nat>)
    requires |d| >= 4 && forall i :: 0 <= i < 4 ==> d[i] < 4
    ensures DecArrayToByte(d) == 64 * d[0] + 16 * d[1] + 4 * d[2] + d[3]
    ensures DecArrayToByte(d) < 256
  {
    Pow2Small();
    var s1 := BitOr(0, d[0] * 64);
    OrStep(s1, d[1] * 16, 6, 64, d[0]);
    var s2 := BitOr(s1, d[1] * 16);
    OrStep(s2, d[2] * 4, 4, 16, 4 * d[0] + d[1]);
    var s3 := BitOr(s2, d[2] * 4);
    OrStep(s3, d[3], 2, 4, 16 * d[0] + 4 * d[1] + d[2]);
  }

  lemma Pow2Small()
    ensures Pow2(2) == 4 && Pow2(4) == 16 && Pow2(6) == 64 && Pow2(8) == 256
  {
  }

  /** One step of the accumulator: a multiple of `p = 2^k` OR-ed with a value below `p`. */
  lemma OrStep(x: nat, y: nat, k: nat, p: nat, m: nat)
    requires p == Pow2(k) && x == m * p && y < p
    ensures BitOr(x, y) == x + y
  {
    MulDivExact(m, p);
    BitOrLow(x, y, k);
  }

  /** `dec_array_to_byte(byte_to_dec_array(b)) == b` ... */
  lemma ByteDigitsRoundTrip(b: Byte)
    ensures DecArrayToByte(ByteToDecArray(b)) == b
  {
    DecArrayOfDigits(ByteToDecArray(b));
  }

  /** ... and four base-4 digits come back from the byte they make. */
  lemma DigitsByteRoundTrip(d: seq<nat>)
    requires |d| == 4 && forall i :: 0 <= i < 4 ==> d[i] < 4
    ensures DecArrayToByte(d) < 256 && ByteToDecArray(DecArrayToByte(d)) == d
  {
    DecArrayOfDigits(d);
    var e := ByteToDecArray(DecArrayToByte(d));
    assert e[0] == d[0];
    assert e[1] == d[1];
    assert e[2] == d[2];
  }

  /** The digits of a message, four per byte in byte order. */
  function DecDigits(msg: seq<Byte>): (d: seq<nat>)
    ensures |d| == 4 * |msg|
    ensures forall i :: 0 <= i < |d| ==> d[i] < 4
  {
    if msg == [] then [] else ByteToDecArray(msg[0]) + DecDigits(msg[1..])
  }

  /** The digits of a message as the flattening of the bytes' digit arrays. */
  function DigitArrays(msg: seq<Byte>): (ds: seq<seq<nat>>)
    ensures |ds| == |msg| && forall k :: 0 <= k < |msg| ==> ds[k] == ByteToDecArray(msg[k])
  {
    seq(|msg|, k requires 0 <= k < |msg| => ByteToDecArray(msg[k]))
  }

  lemma {:induction false} DecDigitsArrays(msg: seq<Byte>)
    ensures DecDigits(msg) == Concat(DigitArrays(msg))
  {
    if msg != [] {
      DecDigitsArrays(msg[1..]);
      assert DigitArrays(msg)[1..] == DigitArrays(msg[1..]);
    }
  }

  /** The loop `for b in byte_message: arr.extend(byte_to_dec_array(b))` of `message_to_dec`
      and `Base4MessageCoder.encode`. */
  method EncodeDigits(msg: seq<Byte>) returns (arr: seq<nat>)
    ensures arr == DecDigits(msg)
  {
    arr := [];
    for i := 0 to |msg|
      invariant arr + DecDigits(msg[i..]) == DecDigits(msg)
    {
      assert msg[i..][0] == msg[i] && msg[i..][1..] == msg[i + 1..];
      Regroup(arr, ByteToDecArray(msg[i]), DecDigits(msg[i + 1..]));
      arr := arr + ByteToDecArray(msg[i]);
    }
    assert msg[|msg|..] == [];
  }

  /** The zeros `_split_list` appends: enough to reach the next multiple of `size`, and none
      when the length already is one. */
  function Padding(n: nat, size: nat): (k: nat)
    requires size > 0
    ensures k < size && (n + k) % size == 0
    ensures k == 0 <==> n % size == 0
  {
    if n % size != 0 then
      DivModUnique(n + (size - n % size), size, n / size + 1, 0);
      size - n % size
    else 0
  }

  /** The list after `_split_list` padded it: the list, then zeros up to a multiple of `size`;
      the list is unchanged exactly when its length is already a multiple. */
  function Padded(s: seq<nat>, size: nat): (p: seq<nat>)
    requires size > 0
    ensures |p| % size == 0 && |s| <= |p| < |s| + size && p[..|s|] == s
    ensures forall i :: |s| <= i < |p| ==> p[i] == 0
    ensures p == s <==> |s| % size == 0
  {
    s + Repeat(0, Padding(|s|, size))
  }

  /** `_split_list(arr, sublist_size)`: the caller's list is padded in place, then cut into
      consecutive slices of `sublist_size`. */
  method SplitList(arr: SharedList<nat>, size: nat) returns (chunks: seq<seq<nat>>)
    requires size > 0
    modifies arr
    ensures arr.items == Padded(old(arr.items), size)
    ensures chunks == Chunks(arr.items, size)
  {
    if |arr.items| % size != 0 {
      arr.items := arr.items + Repeat(0, size - |arr.items| % size);
    }
    chunks := Chunks(arr.items, size);
  }

  /** What `_split_list` returns: `ceil(n / size)` chunks of exactly `size` entries that
      flatten to the list followed by the padding zeros. */
  lemma SplitListChunks(s: seq<nat>, size: nat)
    requires size > 0
    ensures var chunks := Chunks(Padded(s, size), size);
      |chunks| == (|s| + size - 1) / size &&
      (forall i :: 0 <= i < |chunks| ==> |chunks[i]| == size) &&
      Concat(chunks) == Padded(s, size)
  {
    var p := Padded(s, size);
    var n := |p| / size;
    assert |p| == n * size;
    ChunksExact(p, size, n);
    DivModUnique(|s| + size - 1, size, n, size - 1 - (|p| - |s|));
  }

  /** `message_to_dec`: the message's digits, padded and cut into chunks of eight (one chunk
      per perimeter block). */
  function EncodedMessage(msg: seq<Byte>): seq<seq<nat>> {
    Chunks(Padded(DecDigits(msg), 8), 8)
  }

  method MessageToDec(msg: seq<Byte>) returns (chunks: seq<seq<nat>>)
    ensures chunks == EncodedMessage(msg)
  {
    var digits := EncodeDigits(msg);
    var arr := new SharedList(digits);
    chunks := SplitList(arr, 8);
  }

  /** `message_to_dec` gives `ceil(n / 2)` chunks of eight digits for `n` bytes, holding the
      message's digits and then four zeros when `n` is odd. */
  lemma EncodedMessageShape(msg: seq<Byte>)
    ensures |EncodedMessage(msg)| == (|msg| + 1) / 2
    ensures forall i :: 0 <= i < |EncodedMessage(msg)| ==> |EncodedMessage(msg)[i]| == 8
    ensures Concat(EncodedMessage(msg)) == DecDigits(msg) + Repeat(0, if |msg| % 2 == 1 then 4 else 0)
  {
    var d := DecDigits(msg);
    SplitListChunks(d, 8);
    assert (4 * |msg| + 7) / 8 == (|msg| + 1) / 2;
    if |msg| % 2 == 1 {
      DivModUnique(4 * |msg|, 8, |msg| / 2, 4);
    } else {
      DivModUnique(4 * |msg|, 8, |msg| / 2, 0);
    }
    assert Padded(d, 8) == d + Repeat(0, Padding(|d|, 8));
  }

  /** `bytes(dec_list)`: `None` where Python raises `ValueError` for a value above 255. */
  function ToBytes(values: seq<nat>): (r: Option<seq<Byte>>)
    ensures r.Some? <==> forall i :: 0 <= i < |values| ==> values[i] < 256
    ensures r.Some? ==> r.value == values
  {
    if forall i :: 0 <= i < |values| ==> values[i] < 256 then Some(seq(|values|, i requires 0 <= i < |values| => values[i] as Byte))
    else None
  }

  /** Every chunk holds at least the four entries `dec_array_to_byte` reads. */
  ghost predicate Quads(chunks: seq<seq<nat>>) {
    forall i :: 0 <= i < |chunks| ==> |chunks[i]| >= 4
  }

  /** The loop `for chunk in chunks: dec_list.append(dec_array_to_byte(chunk))` of
      `dec_to_message` and `Base4MessageCoder.decode`. */
  method ChunksToValues(chunks: seq<seq<nat>>) returns (values: seq<nat>)
    requires Quads(chunks)
    ensures |values| == |chunks| && forall i :: 0 <= i < |chunks| ==> values[i] == DecArrayToByte(chunks[i])
  {
    values := [];
    for i := 0 to |chunks|
      invariant |values| == i && forall k :: 0 <= k < i ==> values[k] == DecArrayToByte(chunks[k])
    {
      values := values + [DecArrayToByte(chunks[i])];
    }
  }

  /** The values of the chunks, one byte value per chunk of four. */
  function ChunkValues(chunks: seq<seq<nat>>): (values: seq<nat>)
    requires Quads(chunks)
    ensures |values| == |chunks| && forall i :: 0 <= i < |chunks| ==> values[i] == DecArrayToByte(chunks[i])
  {
    seq(|chunks|, i requires 0 <= i < |chunks| => DecArrayToByte(chunks[i]))
  }

  /** `dec_to_message` and `Base4MessageCoder.decode`, up to the final UTF-8 decoding: the
      digits padded to a multiple of four and cut into chunks of four, one byte per chunk;
      `None` where `bytes` rejects a value. */
  function DecodedMessage(digits: seq<nat>): Option<seq<Byte>> {
    var chunks := Chunks(Padded(digits, 4), 4);
    SplitListChunks(digits, 4);
    ToBytes(ChunkValues(chunks))
  }

  /** `dec_to_message`: the entries go through `int()`, which on integers changes nothing,
      into a fresh list, so the caller's list is not padded. */
  method DecToMessage(arr: seq<nat>) returns (msg: Option<seq<Byte>>)
    ensures msg == DecodedMessage(arr)
  {
    var ints := new SharedList(arr);
    var chunks := SplitList(ints, 4);
    SplitListChunks(arr, 4);
    var values := ChunksToValues(chunks);
    assert values == ChunkValues(chunks);
    msg := ToBytes(values);
  }

  /** Decoding digits never fails when they are all base-4 digits: each chunk of four gives
      the byte it spells, the last one read with zeros after it. */
  lemma DecodedDigits(digits: seq<nat>)
    requires forall i :: 0 <= i < |digits| ==> digits[i] < 4
    ensures DecodedMessage(digits).Some?
    ensures var chunks := Chunks(Padded(digits, 4), 4);
      |DecodedMessage(digits).value| == |chunks| == (|digits| + 3) / 4 &&
      (forall i :: 0 <= i < |chunks| ==> |chunks[i]| == 4) &&
      forall i :: 0 <= i < |chunks| ==>
        DecodedMessage(digits).value[i] == 64 * chunks[i][0] + 16 * chunks[i][1] + 4 * chunks[i][2] + chunks[i][3]
  {
    var p := Padded(digits, 4);
    var chunks := Chunks(p, 4);
    SplitListChunks(digits, 4);
    forall i | 0 <= i < |chunks|
      ensures DecArrayToByte(chunks[i]) == 64 * chunks[i][0] + 16 * chunks[i][1] + 4 * chunks[i][2] + chunks[i][3] < 256
    {
      ChunksInside(p, 4, i);
      forall j | 0 <= j < 4
        ensures chunks[i][j] < 4
      {
        assert chunks[i][j] in chunks[i];
      }
      DecArrayOfDigits(chunks[i]);
    }
  }

  /** Every entry of a chunk is an entry of the list. */
  lemma {:induction false} ChunksInside<T>(s: seq<T>, size: nat, i: nat)
    requires size > 0 && i < |Chunks(s, size)|
    ensures forall x :: x in Chunks(s, size)[i] ==> x in s
    decreases |s|
  {
    if i > 0 {
      ChunksInside(s[size..], size, i - 1);
    }
  }

  /** `Base4MessageCoder.decode(Base4MessageCoder.encode(m)) == m` on bytes, and `decode`
      leaves the encoded list as it is, since four digits per byte need no padding. */
  lemma Base4RoundTrip(msg: seq<Byte>)
    ensures DecodedMessage(DecDigits(msg)) == Some(msg)
    ensures Padded(DecDigits(msg), 4) == DecDigits(msg)
  {
    var d := DecDigits(msg);
    MulDivExact(|msg|, 4);
    assert |d| == |msg| * 4;
    DecDigitsArrays(msg);
    ChunksOfConcat(DigitArrays(msg), 4);
    DigitArraysValues(msg);
  }

  /** Reading back the digit arrays of the bytes gives the bytes. */
  lemma DigitArraysValues(msg: seq<Byte>)
    ensures Quads(DigitArrays(msg)) && ChunkValues(DigitArrays(msg)) == msg
  {
    forall k | 0 <= k < |msg|
      ensures DecArrayToByte(DigitArrays(msg)[k]) == msg[k]
    {
      ByteDigitsRoundTrip(msg[k]);
    }
  }

  /** `dec_to_message(chain(message_to_dec(m)))` gives the message back, followed by one NUL
      byte when it has an odd number of bytes: that byte comes from the four padding zeros
      `message_to_dec` added to fill the last chunk of eight ... */
  lemma MessageRoundTrip(msg: seq<Byte>)
    ensures DecodedMessage(Concat(EncodedMessage(msg))) == Some(msg + if |msg| % 2 == 1 then [0] else [])
  {
    EncodedMessageShape(msg);
    var z: seq<Byte> := if |msg| % 2 == 1 then [0] else [];
    var zeros := Repeat(0, if |msg| % 2 == 1 then 4 else 0);
    assert DecDigits(z) == zeros by {
      if z != [] {
        assert z[1..] == [];
      }
    }
    DecDigitsAppend(msg, z);
    assert Concat(EncodedMessage(msg)) == DecDigits(msg + z);
    Base4RoundTrip(msg + z);
  }

  /** ... so a message with an even number of bytes, such as the test message
      "v89 wib fkj ghf 20", comes back unchanged. */
  lemma MessageRoundTripEven(msg: seq<Byte>)
    requires |msg| % 2 == 0
    ensures DecodedMessage(Concat(EncodedMessage(msg))) == Some(msg)
  {
    MessageRoundTrip(msg);
    assert msg + [] == msg;
  }

  lemma {:induction false} DecDigitsAppend(a: seq<Byte>, b: seq<Byte>)
    ensures DecDigits(a + b) == DecDigits(a) + DecDigits(b)
  {
    if a == [] {
      assert a + b == b;
    } else {
      assert (a + b)[0] == a[0] && (a + b)[1..] == a[1..] + b;
      DecDigitsAppend(a[1..], b);
      Regroup(ByteToDecArray(a[0]), DecDigits(a[1..]), DecDigits(b));
    }
  }

  /** `Base4MessageCoder.encode`: the flat digit list, four digits per byte. */
  method Base4Encode(msg: seq<Byte>) returns (arr: seq<nat>)
    ensures arr == DecDigits(msg)
  {
    arr := EncodeDigits(msg);
  }

  /** `Base4MessageCoder.decode`: unlike `dec_to_message` it hands the caller's own list to
      `_split_list`, which pads it in place. */
  method Base4Decode(arr: SharedList<nat>) returns (msg: Option<seq<Byte>>)
    modifies arr
    ensures msg == DecodedMessage(old(arr.items))
    ensures arr.items == Padded(old(arr.items), 4)
  {
    ghost var digits := arr.items;
    var chunks := SplitList(arr, 4);
    SplitListChunks(digits, 4);
    var values := ChunksToValues(chunks);
    assert values == ChunkValues(chunks);
    msg := ToBytes(values);
  }

  /** `bin(av)` without its `0b` prefix: the binary digits of `av`, most significant first,
      with no leading zero (`0` for zero). */
  function BinDigits(av: nat): (bits: seq<int>)
    ensures 1 <= |bits| && IsBits(bits) && Horner(bits) == av
    ensures av >= 2 ==> bits[0] == 1
  {
    if av < 2 then [av]
    else
      var bits := BinDigits(av / 2) + [av % 2];
      assert bits[..|bits| - 1] == BinDigits(av / 2);
      bits
  }

  /** A value below `2^k` has at most `k` binary digits. */
  lemma {:induction false} BinDigitsLength(av: nat, k: nat)
    requires 1 <= k && av < Pow2(k)
    ensures |BinDigits(av)| <= k
  {
    if av >= 2 {
      BinDigitsLength(av / 2, k - 1);
    }
  }

  /** `str.rjust(8, '0')`: zeros on the left up to eight digits; a longer string is kept. */
  function RJust8(bits: seq<int>): (r: seq<int>)
    ensures |r| == if |bits| < 8 then 8 else |bits|
    ensures r[|r| - |bits|..] == bits && forall i :: 0 <= i < |r| - |bits| ==> r[i] == 0
  {
    if |bits| < 8 then Repeat(0, 8 - |bits|) + bits else bits
  }

  /** Leading zeros do not change the value of a bit list. */
  lemma {:induction false} HornerLeadingZeros(z: nat, bits: seq<int>)
    ensures Horner(Repeat(0, z) + bits) == Horner(bits)
    decreases |bits|
  {
    var s := Repeat(0, z) + bits;
    if bits == [] {
      assert s == Repeat(0, z);
      HornerZeros(z);
    } else {
      var n := |bits|;
      assert s[..|s| - 1] == Repeat(0, z) + bits[..n - 1];
      HornerLeadingZeros(z, bits[..n - 1]);
    }
  }

  lemma {:induction false} HornerZeros(z: nat)
    ensures Horner(Repeat(0, z)) == 0
  {
    if z > 0 {
      assert Repeat(0, z)[..z - 1] == Repeat(0, z - 1);
      HornerZeros(z - 1);
    }
  }

  /** For a code point below 256 the padded `bin` string is its 8-bit MSB-first expansion. */
  lemma CodePointBits(av: nat)
    requires av < 256
    ensures av < Pow2(8) && RJust8(BinDigits(av)) == ToBits(av, 8)
  {
    assert Pow2(8) == 256;
    BinDigitsLength(av, 8);
    var b := BinDigits(av);
    HornerLeadingZeros(8 - |b|, b);
    assert IsBits(RJust8(b));
    HornerInjective(RJust8(b), ToBits(av, 8));
  }

  /** The bits `Base2MessageCoder.encode` gives one character. */
  function CharBits(c: char): seq<int> {
    RJust8(BinDigits(c as nat))
  }

  /** `Base2MessageCoder.encode`: the padded binary digits of every code point, one after
      another; a code point of 256 or more gives more than eight. */
  function Base2Encode(text: string): (bits: seq<int>)
    ensures IsBits(bits)
  {
    if text == [] then []
    else
      var b := CharBits(text[0]);
      assert IsBits(b);
      b + Base2Encode(text[1..])
  }

  /** The 8-bit MSB-first expansion of every character of a text whose code points are all
      below 256. */
  function Latin1Bits(text: string): (pieces: seq<seq<int>>)
    requires forall i :: 0 <= i < |text| ==> text[i] as int < 256
    ensures |pieces| == |text|
    ensures forall i :: 0 <= i < |text| ==> |pieces[i]| == 8 && Horner(pieces[i]) == text[i] as int
  {
    Pow2Small();
    seq(|text|, i requires 0 <= i < |text| => ToBits(text[i] as int, 8))
  }

  lemma Latin1BitsTail(text: string)
    requires text != [] && forall i :: 0 <= i < |text| ==> text[i] as int < 256
    ensures Latin1Bits(text)[0] == RJust8(BinDigits(text[0] as nat))
    ensures Latin1Bits(text)[1..] == Latin1Bits(text[1..])
  {
    CodePointBits(text[0] as nat);
  }

  /** Every code point below 256 takes exactly eight bits, its MSB-first expansion. */
  lemma {:induction false} Base2EncodeLatin1(text: string)
    requires forall i :: 0 <= i < |text| ==> text[i] as int < 256
    ensures |Base2Encode(text)| == 8 * |text|
    ensures Base2Encode(text) == Concat(Latin1Bits(text))
  {
    if text != [] {
      Base2EncodeLatin1(text[1..]);
      Latin1BitsTail(text);
    }
  }

  /** A chunk of at most eight bits is below 256, so `chr` accepts its value. */
  lemma SmallChunk(bits: seq<int>)
    requires |bits| <= 8
    ensures Horner(bits) < 256
  {
    Pow2Mono(|bits|, 8);
    assert Pow2(8) == 256;
  }

  /** `str(b)` of a non-negative entry: its decimal digits, most significant first. */
  function DecimalDigits(b: nat): (ds: seq<int>)
    ensures |ds| >= 1 && forall k :: 0 <= k < |ds| ==> 0 <= ds[k] < 10
    ensures Decimal(ds) == b
  {
    if b < 10 then [b]
    else
      var front := DecimalDigits(b / 10);
      assert (front + [b % 10])[..|front|] == front;
      front + [b % 10]
  }

  /** The number a list of decimal digits spells, most significant first. */
  function Decimal(ds: seq<int>): int {
    if ds == [] then 0 else 10 * Decimal(ds[..|ds| - 1]) + ds[|ds| - 1]
  }

  /** An entry `int('0b...', 2)` accepts: no sign, and only the digits 0 and 1 in `str(b)`. */
  predicate BinaryEntry(b: int) {
    b >= 0 && forall k :: 0 <= k < |DecimalDigits(b)| ==> DecimalDigits(b)[k] <= 1
  }

  /** `''.join([str(b) for b in chunk])` as digit values. */
  function JoinedDigits(chunk: seq<int>): (ds: seq<int>)
    requires forall i :: 0 <= i < |chunk| ==> chunk[i] >= 0
    ensures |ds| >= |chunk|
  {
    if chunk == [] then [] else DecimalDigits(chunk[0]) + JoinedDigits(chunk[1..])
  }

  /** `int('0b' + ''.join([str(b) for b in chunk]), 2)`: `None` where `int` raises
      `ValueError`, which is for an empty chunk, a negative entry, or a digit above 1. */
  function ChunkValue(chunk: seq<int>): (v: Option<nat>)
    ensures v.Some? <==> chunk != [] && forall i :: 0 <= i < |chunk| ==> BinaryEntry(chunk[i])
    ensures IsBits(chunk) && chunk != [] ==> v == Some(Horner(chunk))
  {
    JoinedBits(chunk);
    if chunk != [] && forall i :: 0 <= i < |chunk| ==> BinaryEntry(chunk[i]) then
      Some(Horner(JoinedDigits(chunk)))
    else None
  }

  /** Entries that are 0 or 1 are their own decimal digits. */
  lemma {:induction false} JoinedBits(chunk: seq<int>)
    ensures IsBits(chunk) ==>
              (forall i :: 0 <= i < |chunk| ==> BinaryEntry(chunk[i])) && JoinedDigits(chunk) == chunk
  {
    if IsBits(chunk) && chunk != [] {
      assert DecimalDigits(chunk[0]) == [chunk[0]];
      assert IsBits(chunk[1..]) by {
        assert forall i :: 0 <= i < |chunk[1..]| ==> chunk[1..][i] == chunk[i + 1];
      }
      JoinedBits(chunk[1..]);
      assert chunk == [chunk[0]] + chunk[1..];
    }
  }

  /** `chr(v)`: the character of a code point. Python raises `ValueError` above 0x10FFFF; the
      surrogates 0xD800..0xDFFF have no `char` here and fail as well. */
  function Chr(v: nat): (c: Option<char>)
    ensures c.Some? <==> v < 0xD800 || 0xE000 <= v < 0x11_0000
    ensures c.Some? ==> c.value as int == v
  {
    if v < 0xD800 || 0xE000 <= v < 0x11_0000 then Some(v as char) else None
  }

  /** `chr(int('0b' + ''.join(...), 2))` for one chunk. */
  function ChunkChar(chunk: seq<int>): Option<char> {
    match ChunkValue(chunk)
    case None => None
    case Some(v) => Chr(v)
  }

  /** `Base2MessageCoder.decode`: the bits cut into chunks of eight (the last possibly
      shorter), each chunk's entries written out with `str` and read as one binary numeral
      by `int(..., 2)`, and the value turned into a character by `chr`; `None` where either
      raises. A 0/1 list decodes, one character per chunk of that chunk's MSB-first value. */
  function Base2Decode(bits: seq<int>): (r: Option<string>)
    ensures r.Some? <==> forall i :: 0 <= i < |Chunks(bits, 8)| ==> ChunkChar(Chunks(bits, 8)[i]).Some?
    ensures r.Some? ==>
              |r.value| == |Chunks(bits, 8)| &&
              forall i :: 0 <= i < |r.value| ==> ChunkChar(Chunks(bits, 8)[i]) == Some(r.value[i])
    ensures IsBits(bits) ==>
              r.Some? && forall i :: 0 <= i < |r.value| ==> r.value[i] as int == Horner(Chunks(bits, 8)[i])
  {
    BitChunksDecode(bits);
    if forall i :: 0 <= i < |Chunks(bits, 8)| ==> ChunkChar(Chunks(bits, 8)[i]).Some? then
      Some(seq(|Chunks(bits, 8)|, i requires 0 <= i < |Chunks(bits, 8)| => ChunkChar(Chunks(bits, 8)[i]).value))
    else
      assert !(forall i :: 0 <= i < |Chunks(bits, 8)| ==> ChunkChar(Chunks(bits, 8)[i]).Some?);
      None
  }

  /** Every chunk of a 0/1 list is read as its MSB-first value, a character below 256. */
  lemma BitChunksDecode(bits: seq<int>)
    ensures IsBits(bits) ==> forall i :: 0 <= i < |Chunks(bits, 8)| ==>
      ChunkChar(Chunks(bits, 8)[i]).Some? && ChunkChar(Chunks(bits, 8)[i]).value as int == Horner(Chunks(bits, 8)[i])
  {
    if IsBits(bits) {
      var chunks := Chunks(bits, 8);
      forall i | 0 <= i < |chunks|
        ensures ChunkChar(chunks[i]).Some? && ChunkChar(chunks[i]).value as int == Horner(chunks[i])
      {
        ChunkBits(bits, 8, i);
        SmallChunk(chunks[i]);
      }
    }
  }

  /** Python reads the entries' decimal digits: `[10]` is the numeral `0b10`, so it decodes
      to the character 2 ... */
  lemma Base2DecodeTen()
    ensures Base2Decode([10]) == Some([2 as char])
  {
    SingletonChunks(10);
    assert ChunkChar([10]) == Some(2 as char) by {
      assert DecimalDigits(1) == [1];
      assert DecimalDigits(10) == [1, 0];
      assert JoinedDigits([10]) == [1, 0] by {
        assert [10][1..] == [];
      }
      assert Horner([1, 0]) == 2 by {
        assert [1, 0][..1] == [1];
      }
    }
    var r := Base2Decode([10]);
    assert |r.value| == 1 && r.value[0] == 2 as char;
    assert r.value == [2 as char];
  }

  /** ... while `[2]` and `[-1]` make `int` raise. */
  lemma Base2DecodeRejects()
    ensures Base2Decode([2]).None? && Base2Decode([-1]).None?
  {
    SingletonChunks(2);
    SingletonChunks(-1);
    assert DecimalDigits(2)[0] == 2;
    assert ChunkChar([2]).None?;
    assert ChunkChar([-1]).None?;
  }

  lemma SingletonChunks(x: int)
    ensures Chunks([x], 8) == [[x]]
  {
  }

  /** `Base2MessageCoder.decode(encode(s)) == s` when every code point is below 256 ... */
  lemma Base2RoundTrip(text: string)
    requires forall i :: 0 <= i < |text| ==> text[i] as int < 256
    ensures Base2Decode(Base2Encode(text)) == Some(text)
  {
    var pieces := Latin1Bits(text);
    Base2EncodeLatin1(text);
    ChunksOfConcat(pieces, 8);
    var r := Base2Decode(Base2Encode(text));
    assert |r.value| == |text|;
    forall i | 0 <= i < |text|
      ensures r.value[i] == text[i]
    {
      assert r.value[i] as int == Horner(pieces[i]);
    }
    assert r.value == text;
  }

  /** ... and `encode(decode(bits)) == bits` for a 0/1 list of whole bytes. */
  lemma Base2RoundTripBits(bits: seq<int>)
    requires IsBits(bits) && |bits| % 8 == 0
    ensures Base2Decode(bits).Some? && Base2Encode(Base2Decode(bits).value) == bits
  {
    var chunks := Chunks(bits, 8);
    FloorMultiple(|bits|, 8);
    ChunksExact(bits, 8, |bits| / 8);
    var text := Base2Decode(bits).value;
    forall i | 0 <= i < |chunks|
      ensures text[i] as int < 256 && ToBits(text[i] as int, 8) == chunks[i]
    {
      Base2ChunkAt(bits, i);
    }
    var pieces := Latin1Bits(text);
    assert pieces == chunks;
    Base2EncodeLatin1(text);
  }

  /** A whole chunk of eight bits decodes to a character below 256 whose bits are the
      chunk. */
  lemma Base2ChunkAt(bits: seq<int>, i: nat)
    requires IsBits(bits) && i < |Chunks(bits, 8)| && |Chunks(bits, 8)[i]| == 8
    ensures Base2Decode(bits).Some? && i < |Base2Decode(bits).value|
    ensures var c := Base2Decode(bits).value[i];
      c as int < 256 && ToBits(c as int, 8) == Chunks(bits, 8)[i]
  {
    var chunks := Chunks(bits, 8);
    var text := Base2Decode(bits).value;
    ChunkBits(bits, 8, i);
    SmallChunk(chunks[i]);
    Pow2Small();
    HornerInjective(ToBits(text[i] as int, 8), chunks[i]);
  }

  /** A chunk of a 0/1 list is a 0/1 list. */
  lemma ChunkBits(bits: seq<int>, size: nat, i: nat)
    requires IsBits(bits) && size > 0 && i < |Chunks(bits, size)|
    ensures IsBits(Chunks(bits, size)[i])
  {
    var c := Chunks(bits, size)[i];
    ChunksInside(bits, size, i);
    forall j | 0 <= j < |c|
      ensures c[j] == 0 || c[j] == 1
    {
      assert c[j] in c;
    }
  }
}
