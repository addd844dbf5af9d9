/** The older digit framing (stego/message.py). Its `byte_to_dec_array`, `dec_array_to_byte`
    and loops are the same code as in stego/coder/message.py and are taken from
    `CoderMessage`; what differs is `_split_list`, which always appends
    `sublist_size - len % sublist_size` zeros, a whole chunk of them when the length is
    already a multiple. */
module LegacyMessage {
  import opened Common
  import CoderMessage

  /** The zeros the always-padding `_split_list` appends: between 1 and `size`, `size` exactly
      when the length is already a multiple. */
  function AlwaysPadding(n: nat, size: nat): (k: nat)
    requires size > 0
    ensures 1 <= k <= size && (n + k) % size == 0
    ensures k == size <==> n % size == 0
  {
    DivModUnique(n + (size - n % size), size, n / size + 1, 0);
    size - n % size
  }

  /** The list after the always-padding `_split_list`: strictly longer, a multiple of `size`,
      the list followed by zeros. */
  function AlwaysPadded(s: seq<nat>, size: nat): (p: seq<nat>)
    requires size > 0
    ensures |p| % size == 0 && |s| < |p| <= |s| + size && p[..|s|] == s
    ensures forall i :: |s| <= i < |p| ==> p[i] == 0
  {
    s + Repeat(0, AlwaysPadding(|s|, size))
  }

  /** `_split_list(arr, sublist_size)` of stego/message.py: `arr += [0] * ...` pads the
      caller's list in place, then the list is cut into slices of `sublist_size`. */
  method SplitList(arr: SharedList<nat>, size: nat) returns (chunks: seq<seq<nat>>)
    requires size > 0
    modifies arr
    ensures arr.items == AlwaysPadded(old(arr.items), size)
    ensures chunks == Chunks(arr.items, size)
  {
    arr.items := arr.items + Repeat(0, size - |arr.items| % size);
    chunks := Chunks(arr.items, size);
  }

  /** Its chunks: `len // size + 1` of them, all full, flattening to the padded list. */
  lemma SplitListChunks(s: seq<nat>, size: nat)
    requires size > 0
    ensures var chunks := Chunks(AlwaysPadded(s, size), size);
      |chunks| == |s| / size + 1 &&
      (forall i :: 0 <= i < |chunks| ==> |chunks[i]| == size) &&
      Concat(chunks) == AlwaysPadded(s, size)
  {
    var p := AlwaysPadded(s, size);
    DivModUnique(|p|, size, |s| / size + 1, 0);
    ChunksExact(p, size, |s| / size + 1);
  }

  /** `message_to_dec` of stego/message.py, as a value. */
  function EncodedMessage(msg: seq<Byte>): seq<seq<nat>> {
    Chunks(AlwaysPadded(CoderMessage.DecDigits(msg), 8), 8)
  }

  method MessageToDec(msg: seq<Byte>) returns (chunks: seq<seq<nat>>)
    ensures chunks == EncodedMessage(msg)
  {
    var digits := CoderMessage.EncodeDigits(msg);
    var arr := new SharedList(digits);
    chunks := SplitList(arr, 8);
  }

  /** `message_to_dec` gives `4n // 8 + 1` chunks of eight digits for `n` bytes: the
      message's digits, then four zeros when `n` is odd and eight when it is even. */
  lemma EncodedMessageShape(msg: seq<Byte>)
    ensures |EncodedMessage(msg)| == 4 * |msg| / 8 + 1
    ensures forall i :: 0 <= i < |EncodedMessage(msg)| ==> |EncodedMessage(msg)[i]| == 8
    ensures Concat(EncodedMessage(msg)) == CoderMessage.DecDigits(msg) + Repeat(0, if |msg| % 2 == 1 then 4 else 8)
  {
    var d := CoderMessage.DecDigits(msg);
    SplitListChunks(d, 8);
    if |msg| % 2 == 1 {
      DivModUnique(4 * |msg|, 8, |msg| / 2, 4);
    } else {
      DivModUnique(4 * |msg|, 8, |msg| / 2, 0);
    }
  }

  /** `dec_to_message` of stego/message.py up to the UTF-8 decoding: the digits, always
      padded, in chunks of four, one byte per chunk. */
  function DecodedMessage(digits: seq<nat>): Option<seq<Byte>> {
    var chunks := Chunks(AlwaysPadded(digits, 4), 4);
    SplitListChunks(digits, 4);
    CoderMessage.ToBytes(CoderMessage.ChunkValues(chunks))
  }

  /** `dec_to_message`: `int()` of every entry into a fresh list, padded and decoded. */
  method DecToMessage(arr: seq<nat>) returns (msg: Option<seq<Byte>>)
    ensures msg == DecodedMessage(arr)
  {
    var ints := new SharedList(arr);
    var chunks := SplitList(ints, 4);
    SplitListChunks(arr, 4);
    var values := CoderMessage.ChunksToValues(chunks);
    assert values == CoderMessage.ChunkValues(chunks);
    msg := CoderMessage.ToBytes(values);
  }

  /** A run of zero bytes has only zero digits. */
  lemma {:induction false} ZeroDigits(z: seq<Byte>)
    requires forall i :: 0 <= i < |z| ==> z[i] == 0
    ensures CoderMessage.DecDigits(z) == Repeat(0, 4 * |z|)
  {
    if z != [] {
      ZeroDigits(z[1..]);
      assert CoderMessage.ByteToDecArray(0) == [0, 0, 0, 0];
      assert CoderMessage.DecDigits(z) == Repeat(0, 4) + Repeat(0, 4 * |z| - 4);
    }
  }

  /** A list of whole chunks of four gets a whole chunk of zeros ... */
  lemma AlwaysPaddedWhole(d: seq<nat>)
    requires |d| % 4 == 0
    ensures AlwaysPadded(d, 4) == d + Repeat(0, 4)
  {
  }

  /** ... so the always-padding decoder reads it as the other decoder reads it with four more
      zeros. */
  lemma DecodedAsCoder(d: seq<nat>)
    requires |d| % 4 == 0
    ensures DecodedMessage(d) == CoderMessage.DecodedMessage(d + Repeat(0, 4))
  {
    var e := d + Repeat(0, 4);
    AlwaysPaddedWhole(d);
    assert CoderMessage.Padded(e, 4) == e;
  }

  /** Decoding the digits of whole bytes always adds one NUL byte: the padding chunk of four
      zeros. */
  lemma DecodeWholeBytes(msg: seq<Byte>)
    ensures DecodedMessage(CoderMessage.DecDigits(msg)) == Some(msg + [0])
  {
    var d := CoderMessage.DecDigits(msg);
    assert |d| % 4 == 0;
    AppendZeroByte(msg);
    DecodedAsCoder(d);
    CoderMessage.Base4RoundTrip(msg + [0]);
  }

  lemma AppendZeroByte(msg: seq<Byte>)
    ensures CoderMessage.DecDigits(msg + [0]) == CoderMessage.DecDigits(msg) + Repeat(0, 4)
  {
    CoderMessage.DecDigitsAppend(msg, [0]);
    assert CoderMessage.DecDigits([0]) == [0, 0, 0, 0];
  }

  /** `dec_to_message(chain(message_to_dec(m)))` is the message followed by three NUL bytes
      when it has an even number of bytes and by two when it has an odd number ... */
  lemma MessageRoundTrip(msg: seq<Byte>)
    ensures DecodedMessage(Concat(EncodedMessage(msg))) == Some(msg + if |msg| % 2 == 1 then [0, 0] else [0, 0, 0])
  {
    EncodedMessageShape(msg);
    var digits := Concat(EncodedMessage(msg));
    var z: seq<Byte> := if |msg| % 2 == 1 then [0] else [0, 0];
    PaddedRoundTrip(msg, z, digits);
    assert z + [0] == if |msg| % 2 == 1 then [0, 0] else [0, 0, 0];
  }

  /** Digits followed by the digits of zero bytes `z` decode to the message, `z` and the NUL
      byte of the padding chunk. */
  lemma PaddedRoundTrip(msg: seq<Byte>, z: seq<Byte>, digits: seq<nat>)
    requires forall i :: 0 <= i < |z| ==> z[i] == 0
    requires digits == CoderMessage.DecDigits(msg) + Repeat(0, 4 * |z|)
    ensures DecodedMessage(digits) == Some(msg + (z + [0]))
  {
    ZeroDigits(z);
    CoderMessage.DecDigitsAppend(msg, z);
    assert digits == CoderMessage.DecDigits(msg + z);
    DecodeWholeBytes(msg + z);
    Regroup<Byte>(msg, z, [0]);
  }

  /** ... so no message survives the round trip, the 18-byte test message
      "v89 wib fkj ghf 20" included. */
  lemma MessageRoundTripGrows(msg: seq<Byte>)
    ensures DecodedMessage(Concat(EncodedMessage(msg))).Some?
    ensures |DecodedMessage(Concat(EncodedMessage(msg))).value| > |msg|
    ensures DecodedMessage(Concat(EncodedMessage(msg))) != Some(msg)
  {
    MessageRoundTrip(msg);
  }
}
