/** The colour-image orchestration (stego/core/multichannel_coder.py): crop, dispatch, convert
    into a colour space, re-encode the chosen channels, convert back; and on the way out,
    decode the chosen channels, consolidate and vote. Colour conversion, channel split and
    merge, and the per-channel wavelet encode and decode are foreign numerics and are passed
    in as uninterpreted functions. */
module Multichannel {
  import opened Common
  import opened CoreMessage
  import opened CoreBlocking
  import opened CoreCapacity

  /** The `cv2.COLOR_*` codes the coder can pass; `NoCode` is the `None` stored for "RGB". */
  datatype Conversion = NoCode | RGB2YCrCb | RGB2HSV | RGB2HLS | RGB2Lab | RGB2Luv | RGB2YUV | RGB2XYZ | YCrCb2RGB

  /** The `color_spaces` table. */
  const ColorSpaces: map<string, Conversion> := map[
    "RGB" := NoCode, "YCrCb" := RGB2YCrCb, "HSV" := RGB2HSV, "HLS" := RGB2HLS,
    "Lab" := RGB2Lab, "Luv" := RGB2Luv, "YUV" := RGB2YUV, "XYZ" := RGB2XYZ]

  /** `color_spaces.get(color_space, cv2.COLOR_RGB2YCrCb)`: a listed name gives its code, and
      any other name falls back to RGB to YCrCb. Only "RGB" gives no code, and the inverse
      conversion is never chosen. */
  function ColourConversion(name: string): (c: Conversion)
    ensures name in ColorSpaces ==> c == ColorSpaces[name]
    ensures c == RGB2YCrCb <==> name == "YCrCb" || name !in ColorSpaces
    ensures c == NoCode <==> name == "RGB"
    ensures c != YCrCb2RGB
  {
    if name in ColorSpaces then ColorSpaces[name] else RGB2YCrCb
  }

  /** The foreign parts: `cv2.cvtColor`, `cv2.split`, `cv2.merge`, and `coder.encode` /
      `coder.decode` of one channel with the wavelet, coefficient names, block size, level and
      strength already bound. */
  datatype Library<!Px, !Ch> = Library(
    convert: (seq<seq<Px>>, Conversion) -> seq<seq<Px>>,
    split: seq<seq<Px>> -> seq<Ch>,
    merge: seq<Ch> -> seq<seq<Px>>,
    encode: (Ch, seq<seq<Byte>>) -> Ch,
    decode: Ch -> seq<seq<Byte>>)

  /** What a call gives: a value, or the exception it raises. */
  datatype Outcome<T> =
    | Ok(value: T)
    | CapacityFailure(capacity: nat, length: nat)
    | IndexFailure(index: int)
    | ConversionFailure
    | NoFragment

  /** Python list indexing `xs[c]` for a list of `n` elements: negative positions count from
      the end; anything outside `-n .. n-1` raises `IndexError`. */
  function ChannelIndex(c: int, n: nat): (k: Option<nat>)
    ensures k.Some? <==> -(n as int) <= c < n
    ensures k.Some? ==> k.value < n && (k.value == c || k.value == c + n)
  {
    if 0 <= c < n then Some(c) else if -(n as int) <= c < 0 then Some((c + n) as nat) else None
  }

  /** The `use_channels` loop of the encoder, from the current channel list on: each listed
      channel is replaced by its encoding; the first index out of range stops it. */
  function Replace<Ch>(encode: (Ch, seq<seq<Byte>>) -> Ch, channels: seq<Ch>, use: seq<int>, parts: seq<seq<Byte>>): (r: Outcome<seq<Ch>>)
    ensures r.Ok? ==> |r.value| == |channels|
    ensures r.Ok? || r.IndexFailure?
    decreases |use|
  {
    if use == [] then Ok(channels)
    else match ChannelIndex(use[0], |channels|)
      case None => IndexFailure(use[0])
      case Some(k) => Replace(encode, channels[k := encode(channels[k], parts)], use[1..], parts)
  }

  /** With the first index in range, all are in range exactly when those after it are. */
  lemma TailInRange(use: seq<int>, n: nat)
    requires use != [] && -(n as int) <= use[0] < n
    ensures (forall i :: 0 <= i < |use| ==> -(n as int) <= use[i] < n) <==>
            (forall i :: 0 <= i < |use[1..]| ==> -(n as int) <= use[1..][i] < n)
  {
    assert forall i :: 0 <= i < |use[1..]| ==> use[1..][i] == use[i + 1];
  }

  /** The first failing index after the first is found at `i + 1` in the whole list. */
  lemma FailTail(use: seq<int>, n: nat, i: nat)
    requires use != [] && -(n as int) <= use[0] < n && i < |use[1..]|
    requires forall j :: 0 <= j < i ==> -(n as int) <= use[1..][j] < n
    ensures use[1..][i] == use[i + 1]
    ensures forall j :: 0 <= j < i + 1 ==> -(n as int) <= use[j] < n
  {
    forall j | 0 <= j < i + 1
      ensures -(n as int) <= use[j] < n
    {
      if j > 0 {
        assert use[1..][j - 1] == use[j];
      }
    }
  }

  /** `n` successive encodings of one channel with the same parts. */
  function EncodeTimes<Ch>(encode: (Ch, seq<seq<Byte>>) -> Ch, n: nat, x: Ch, parts: seq<seq<Byte>>): Ch {
    if n == 0 then x else EncodeTimes(encode, n - 1, encode(x, parts), parts)
  }

  /** How many entries of `use` name channel `k` of `n`. */
  function Hits(use: seq<int>, n: nat, k: nat): nat {
    if use == [] then 0
    else (if ChannelIndex(use[0], n) == Some(k) then 1 else 0) + Hits(use[1..], n, k)
  }

  /** The loop succeeds exactly when every listed index is in range ... */
  lemma {:induction false} ReplaceFails<Ch>(encode: (Ch, seq<seq<Byte>>) -> Ch, channels: seq<Ch>, use: seq<int>, parts: seq<seq<Byte>>)
    ensures Replace(encode, channels, use, parts).Ok? <==> forall i :: 0 <= i < |use| ==> -|channels| <= use[i] < |channels|
    decreases |use|
  {
    if use != [] {
      var c := ChannelIndex(use[0], |channels|);
      if c.Some? {
        var next := channels[c.value := encode(channels[c.value], parts)];
        assert Replace(encode, channels, use, parts) == Replace(encode, next, use[1..], parts) && |next| == |channels|;
        ReplaceFails(encode, next, use[1..], parts);
        TailInRange(use, |channels|);
      }
    }
  }

  /** ... and otherwise it stops at the first index out of range, reporting that index. */
  lemma {:induction false} ReplaceFirstFailure<Ch>(encode: (Ch, seq<seq<Byte>>) -> Ch, channels: seq<Ch>, use: seq<int>, parts: seq<seq<Byte>>)
    ensures Replace(encode, channels, use, parts).IndexFailure? ==>
      exists i :: 0 <= i < |use| && Replace(encode, channels, use, parts).index == use[i] &&
        !(-|channels| <= use[i] < |channels|) &&
        forall j :: 0 <= j < i ==> -|channels| <= use[j] < |channels|
    decreases |use|
  {
    if use != [] {
      var c := ChannelIndex(use[0], |channels|);
      if c.Some? {
        var next := channels[c.value := encode(channels[c.value], parts)];
        var rest := Replace(encode, next, use[1..], parts);
        assert Replace(encode, channels, use, parts) == rest && |next| == |channels|;
        ReplaceFirstFailure(encode, next, use[1..], parts);
        if rest.IndexFailure? {
          var i :| 0 <= i < |use[1..]| && rest.index == use[1..][i] &&
            !(-|next| <= use[1..][i] < |next|) && forall j :: 0 <= j < i ==> -|next| <= use[1..][j] < |next|;
          FailTail(use, |channels|, i);
        }
      } else {
        assert Replace(encode, channels, use, parts) == IndexFailure(use[0]);
      }
    }
  }

  /** After the loop, every channel has been encoded once for each time `use_channels` names
      it, and a channel it never names keeps its converted value. */
  lemma {:induction false} ReplaceApplies<Ch>(encode: (Ch, seq<seq<Byte>>) -> Ch, channels: seq<Ch>, use: seq<int>, parts: seq<seq<Byte>>)
    requires Replace(encode, channels, use, parts).Ok?
    ensures forall k :: 0 <= k < |channels| ==>
      Replace(encode, channels, use, parts).value[k] == EncodeTimes(encode, Hits(use, |channels|, k), channels[k], parts)
    decreases |use|
  {
    if use != [] {
      var c := ChannelIndex(use[0], |channels|).value;
      var next := channels[c := encode(channels[c], parts)];
      ReplaceApplies(encode, next, use[1..], parts);
      forall k | 0 <= k < |channels|
        ensures Replace(encode, channels, use, parts).value[k] == EncodeTimes(encode, Hits(use, |channels|, k), channels[k], parts)
      {
        if k == c {
          assert EncodeTimes(encode, Hits(use[1..], |channels|, k) + 1, channels[k], parts)
              == EncodeTimes(encode, Hits(use[1..], |channels|, k), next[k], parts);
        }
      }
    }
  }

  /** A channel `use_channels` never names is left as converted. */
  lemma UntouchedChannel<Ch>(encode: (Ch, seq<seq<Byte>>) -> Ch, channels: seq<Ch>, use: seq<int>, parts: seq<seq<Byte>>, k: nat)
    requires Replace(encode, channels, use, parts).Ok? && k < |channels|
    requires forall i :: 0 <= i < |use| ==> use[i] != k && use[i] != k - |channels|
    ensures Replace(encode, channels, use, parts).value[k] == channels[k]
  {
    ReplaceApplies(encode, channels, use, parts);
    NoHits(use, |channels|, k);
  }

  lemma {:induction false} NoHits(use: seq<int>, n: nat, k: nat)
    requires forall i :: 0 <= i < |use| ==> use[i] != k && use[i] != k - n
    ensures Hits(use, n, k) == 0
  {
    if use != [] {
      NoHits(use[1..], n, k);
    }
  }

  /** The image the coder works on: cropped to multiples of `block_size * 2 ** level`. */
  function Cropped<Px>(image: seq<seq<Px>>, blockSize: nat, level: nat): (c: seq<seq<Px>>)
    requires IsRect(image) && blockSize > 0
    ensures var shape := GetNewShape(image, InitialBlockSize(blockSize, level));
      IsMatrix(c, shape.0, shape.1) &&
      forall i, j :: 0 <= i < shape.0 && 0 <= j < shape.1 ==> c[i][j] == image[i][j]
  {
    var r := CropImageToDivisible(image, InitialBlockSize(blockSize, level));
    r.0
  }

  /** `encode_color_image`. */
  function EncodeColourImage<Px, Ch>(lib: Library<Px, Ch>, image: seq<seq<Px>>, message: seq<Byte>, coefficients: nat,
                                     blockSize: nat, level: nat, colourSpace: string, use: seq<int>): Outcome<seq<seq<Px>>>
    requires IsRect(image) && blockSize > 0
  {
    var cropped := Cropped(image, blockSize, level);
    match UniformMessageDispatcher(|cropped|, Width(cropped), blockSize, level, coefficients, message)
    case CapacityError(capacity, length) => CapacityFailure(capacity, length)
    case Parts(parts) =>
      if ColourConversion(colourSpace) == NoCode then ConversionFailure
      else
        match Replace(lib.encode, lib.split(lib.convert(cropped, ColourConversion(colourSpace))), use, parts)
        case Ok(channels) => Ok(lib.convert(lib.merge(channels), YCrCb2RGB))
        case IndexFailure(index) => IndexFailure(index)
  }

  /** `encode_color_image` as the source runs it: the channel list is updated in place, one
      listed channel at a time. */
  method EncodeColorImage<Px, Ch>(lib: Library<Px, Ch>, image: seq<seq<Px>>, message: seq<Byte>, coefficients: nat,
                                  blockSize: nat, level: nat, colourSpace: string, use: seq<int>)
    returns (stego: Outcome<seq<seq<Px>>>)
    requires IsRect(image) && blockSize > 0
    ensures stego == EncodeColourImage(lib, image, message, coefficients, blockSize, level, colourSpace, use)
  {
    var cropped := Cropped(image, blockSize, level);
    var dispatched := UniformMessageDispatcher(|cropped|, Width(cropped), blockSize, level, coefficients, message);
    if dispatched.CapacityError? {
      return CapacityFailure(dispatched.capacity, dispatched.length);
    }
    var parts := dispatched.parts;
    var code := ColourConversion(colourSpace);
    if code == NoCode {
      return ConversionFailure;
    }
    var channels := lib.split(lib.convert(cropped, code));
    ghost var whole := Replace(lib.encode, channels, use, parts);
    var i := 0;
    while i < |use|
      invariant 0 <= i <= |use|
      invariant whole == Replace(lib.encode, channels, use[i..], parts)
    {
      var k := ChannelIndex(use[i], |channels|);
      if k.None? {
        return IndexFailure(use[i]);
      }
      assert use[i..][1..] == use[i + 1..];
      channels := channels[k.value := lib.encode(channels[k.value], parts)];
      i := i + 1;
    }
    return Ok(lib.convert(lib.merge(channels), YCrCb2RGB));
  }

  /** The capacity check comes first: the encoder fails with `CapacityError` exactly when one
      plane of the cropped image cannot hold the message and its NUL, whatever the colour
      space, channels and foreign functions. */
  lemma EncodeCapacityFirst<Px, Ch>(lib: Library<Px, Ch>, image: seq<seq<Px>>, message: seq<Byte>, coefficients: nat,
                                    blockSize: nat, level: nat, colourSpace: string, use: seq<int>)
    requires IsRect(image) && blockSize > 0
    ensures var cropped := Cropped(image, blockSize, level);
      var cap := GetCapacity(|cropped|, Width(cropped), blockSize, level, coefficients);
      (EncodeColourImage(lib, image, message, coefficients, blockSize, level, colourSpace, use).CapacityFailure?
       <==> cap.coefficient < |message| + 1)
  {
  }

  /** Once the message fits, "RGB" fails in the conversion, whose code is `None`. Otherwise,
      on success the stego image is the YCrCb-to-RGB conversion of the merged channels, where
      each channel of the converted cropped image is encoded once per mention in
      `use_channels` with the uniform parts; on failure the first out-of-range index is
      reported. */
  lemma EncodeResult<Px, Ch>(lib: Library<Px, Ch>, image: seq<seq<Px>>, message: seq<Byte>, coefficients: nat,
                             blockSize: nat, level: nat, colourSpace: string, use: seq<int>)
    requires IsRect(image) && blockSize > 0
    requires var cropped := Cropped(image, blockSize, level);
      UniformMessageDispatcher(|cropped|, Width(cropped), blockSize, level, coefficients, message).Parts?
    ensures var cropped := Cropped(image, blockSize, level);
      var parts := UniformMessageDispatcher(|cropped|, Width(cropped), blockSize, level, coefficients, message).parts;
      var channels := lib.split(lib.convert(cropped, ColourConversion(colourSpace)));
      var r := EncodeColourImage(lib, image, message, coefficients, blockSize, level, colourSpace, use);
      (r.ConversionFailure? <==> colourSpace == "RGB") &&
      (r.Ok? <==> colourSpace != "RGB" && forall i :: 0 <= i < |use| ==> -|channels| <= use[i] < |channels|) &&
      (r.Ok? ==> r.value == lib.convert(lib.merge(
          seq(|channels|, k requires 0 <= k < |channels| => EncodeTimes(lib.encode, Hits(use, |channels|, k), channels[k], parts))),
        YCrCb2RGB)) &&
      (!r.Ok? && !r.ConversionFailure? ==>
        r.IndexFailure? && exists i :: 0 <= i < |use| && r.index == use[i] && !(-|channels| <= use[i] < |channels|))
  {
    var cropped := Cropped(image, blockSize, level);
    var parts := UniformMessageDispatcher(|cropped|, Width(cropped), blockSize, level, coefficients, message).parts;
    var channels := lib.split(lib.convert(cropped, ColourConversion(colourSpace)));
    ReplaceOutcome(lib.encode, channels, use, parts);
  }

  /** The whole `use_channels` loop: it succeeds exactly when every index is in range, then
      with each channel encoded once per mention, and otherwise fails at an index out of
      range. */
  lemma ReplaceOutcome<Ch>(encode: (Ch, seq<seq<Byte>>) -> Ch, channels: seq<Ch>, use: seq<int>, parts: seq<seq<Byte>>)
    ensures var rep := Replace(encode, channels, use, parts);
      (rep.Ok? <==> forall i :: 0 <= i < |use| ==> -|channels| <= use[i] < |channels|) &&
      (rep.Ok? ==>
        rep.value == seq(|channels|, k requires 0 <= k < |channels| => EncodeTimes(encode, Hits(use, |channels|, k), channels[k], parts))) &&
      (!rep.Ok? ==> rep.IndexFailure? && exists i :: 0 <= i < |use| && rep.index == use[i] && !(-|channels| <= use[i] < |channels|))
  {
    ReplaceFails(encode, channels, use, parts);
    ReplaceFirstFailure(encode, channels, use, parts);
    var rep := Replace(encode, channels, use, parts);
    if rep.Ok? {
      ReplaceApplies(encode, channels, use, parts);
      assert rep.value == seq(|channels|, k requires 0 <= k < |channels| => EncodeTimes(encode, Hits(use, |channels|, k), channels[k], parts));
    }
  }

  /** The decoder's loop, from the current position on: the parts decoded from each listed
      channel, in `use_channels` order; the first index out of range stops it. */
  function DecodedParts<Ch>(decode: Ch -> seq<seq<Byte>>, channels: seq<Ch>, use: seq<int>): (r: Outcome<seq<seq<Byte>>>)
    ensures r.Ok? || r.IndexFailure?
    decreases |use|
  {
    if use == [] then Ok([])
    else match ChannelIndex(use[0], |channels|)
      case None => IndexFailure(use[0])
      case Some(k) =>
        match DecodedParts(decode, channels, use[1..])
        case Ok(rest) => Ok(decode(channels[k]) + rest)
        case _ => DecodedParts(decode, channels, use[1..])
  }

  /** Parts already collected in front of what the rest of the loop gives. */
  function Prefixed(parts: seq<seq<Byte>>, r: Outcome<seq<seq<Byte>>>): Outcome<seq<seq<Byte>>> {
    if r.Ok? then Ok(parts + r.value) else r
  }

  /** With every index in range, the loop gives the concatenation of each listed channel's
      parts in `use_channels` order. */
  lemma {:induction false} DecodedPartsOrder<Ch>(decode: Ch -> seq<seq<Byte>>, channels: seq<Ch>, use: seq<int>)
    requires forall i :: 0 <= i < |use| ==> -|channels| <= use[i] < |channels|
    ensures DecodedParts(decode, channels, use) ==
      Ok(Concat(seq(|use|, i requires 0 <= i < |use| => decode(channels[ChannelIndex(use[i], |channels|).value]))))
    decreases |use|
  {
    if use != [] {
      DecodedPartsOrder(decode, channels, use[1..]);
      var all := seq(|use|, i requires 0 <= i < |use| => decode(channels[ChannelIndex(use[i], |channels|).value]));
      assert all[1..] == seq(|use[1..]|, i requires 0 <= i < |use[1..]| => decode(channels[ChannelIndex(use[1..][i], |channels|).value]));
    }
  }

  /** `decode_color_image`. The image is not cropped here; the consolidation uses its own
      capacity. "RGB" fails in the conversion, whose code is `None`. A buffer without a
      fragment longer than five bytes makes the vote fail. */
  function DecodeColourImage<Px, Ch>(lib: Library<Px, Ch>, image: seq<seq<Px>>, coefficients: nat, blockSize: nat,
                                     level: nat, colourSpace: string, use: seq<int>): (r: Outcome<seq<Byte>>)
    requires blockSize > 0
    ensures r.ConversionFailure? <==> colourSpace == "RGB"
    ensures r.Ok? ==> |r.value| > 5 && 0 !in r.value
  {
    if ColourConversion(colourSpace) == NoCode then ConversionFailure
    else
      var channels := lib.split(lib.convert(image, ColourConversion(colourSpace)));
      match DecodedParts(lib.decode, channels, use)
      case Ok(parts) => Vote(MessageConsolidator(parts, GetCapacity(|image|, Width(image), blockSize, level, coefficients).coefficient))
      case IndexFailure(index) => IndexFailure(index)
  }

  /** `extract_repeating_fragment` as an outcome: `None` becomes the vote's failure. */
  function Vote(joined: seq<Byte>): (r: Outcome<seq<Byte>>)
    ensures r.Ok? || r.NoFragment?
    ensures r.Ok? ==> |r.value| > 5 && 0 !in r.value
  {
    match ExtractRepeatingFragment(joined)
    case Some(fragment) => Ok(fragment)
    case None => NoFragment
  }

  /** `decode_color_image` as the source runs it: the parts list grows with `+=` per listed
      channel. */
  method DecodeColorImage<Px, Ch>(lib: Library<Px, Ch>, image: seq<seq<Px>>, coefficients: nat, blockSize: nat,
                                  level: nat, colourSpace: string, use: seq<int>)
    returns (message: Outcome<seq<Byte>>)
    requires blockSize > 0
    ensures message == DecodeColourImage(lib, image, coefficients, blockSize, level, colourSpace, use)
  {
    var code := ColourConversion(colourSpace);
    if code == NoCode {
      return ConversionFailure;
    }
    var channels := lib.split(lib.convert(image, code));
    var parts: seq<seq<Byte>> := [];
    ghost var whole := DecodedParts(lib.decode, channels, use);
    assert use[0..] == use;
    assert whole.Ok? ==> parts + whole.value == whole.value;
    var i := 0;
    while i < |use|
      invariant 0 <= i <= |use|
      invariant whole == Prefixed(parts, DecodedParts(lib.decode, channels, use[i..]))
    {
      var k := ChannelIndex(use[i], |channels|);
      if k.None? {
        assert whole == IndexFailure(use[i]);
        return IndexFailure(use[i]);
      }
      DecodedPartsStep(lib.decode, channels, use, i, parts);
      parts := parts + lib.decode(channels[k.value]);
      i := i + 1;
    }
    assert parts + [] == parts;
    assert whole == Ok(parts);
    var consolidated := MessageConsolidator(parts, GetCapacity(|image|, Width(image), blockSize, level, coefficients).coefficient);
    return Vote(consolidated);
  }

  /** One turn of the decoding loop: the parts of channel `use[i]` move from what the rest of
      the loop gives to the collected parts. */
  lemma DecodedPartsStep<Ch>(decode: Ch -> seq<seq<Byte>>, channels: seq<Ch>, use: seq<int>, i: nat, parts: seq<seq<Byte>>)
    requires i < |use| && ChannelIndex(use[i], |channels|).Some?
    ensures Prefixed(parts, DecodedParts(decode, channels, use[i..])) ==
      Prefixed(parts + decode(channels[ChannelIndex(use[i], |channels|).value]), DecodedParts(decode, channels, use[i + 1..]))
  {
    assert use[i..][1..] == use[i + 1..];
    var first := decode(channels[ChannelIndex(use[i], |channels|).value]);
    var rest := DecodedParts(decode, channels, use[i + 1..]);
    if rest.Ok? {
      assert parts + (first + rest.value) == (parts + first) + rest.value;
    }
  }

  /** Copies of `k` items, `u` times over, are `u * k` copies. */
  lemma {:induction false} ConcatRepeat<T>(x: T, k: nat, u: nat)
    ensures Concat(Repeat(Repeat(x, k), u)) == Repeat(x, u * k)
  {
    if u > 0 {
      assert Repeat(Repeat(x, k), u)[1..] == Repeat(Repeat(x, k), u - 1);
      ConcatRepeat(x, k, u - 1);
      assert (u - 1) * k + k == u * k;
      assert Repeat(x, k) + Repeat(x, (u - 1) * k) == Repeat(x, u * k);
    }
  }

  /** The colour round trip up to the foreign parts: when every listed channel of the image
      decodes to the parts the uniform dispatcher makes for a NUL-free message longer than
      five bytes, the decoder gives the message back in every colour space that has a
      conversion code. */
  lemma DecodeRecovers<Px, Ch>(lib: Library<Px, Ch>, image: seq<seq<Px>>, message: seq<Byte>, coefficients: nat,
                               blockSize: nat, level: nat, colourSpace: string, use: seq<int>)
    requires blockSize > 0 && coefficients > 0 && use != [] && 0 !in message && |message| > 5
    requires colourSpace != "RGB"
    requires UniformMessageDispatcher(|image|, Width(image), blockSize, level, coefficients, message).Parts?
    requires var channels := lib.split(lib.convert(image, ColourConversion(colourSpace)));
      forall i :: 0 <= i < |use| ==>
        (-|channels| <= use[i] < |channels| &&
         lib.decode(channels[ChannelIndex(use[i], |channels|).value]) ==
           UniformMessageDispatcher(|image|, Width(image), blockSize, level, coefficients, message).parts)
    ensures DecodeColourImage(lib, image, coefficients, blockSize, level, colourSpace, use) == Ok(message)
  {
    var channels := lib.split(lib.convert(image, ColourConversion(colourSpace)));
    var h, w := |image|, Width(image);
    var parts := UniformMessageDispatcher(h, w, blockSize, level, coefficients, message).parts;
    DecodedPartsOrder(lib.decode, channels, use);
    var cap := GetCapacity(h, w, blockSize, level, coefficients);
    var padded := Padded(message + [0], cap.coefficient);
    assert parts == Repeat(padded, coefficients);
    var each := seq(|use|, i requires 0 <= i < |use| => lib.decode(channels[ChannelIndex(use[i], |channels|).value]));
    assert each == Repeat(Repeat(padded, coefficients), |use|);
    ConcatRepeat(padded, coefficients, |use|);
    var total := |use| * coefficients;
    MulMono(1, |use|, coefficients);
    assert GetCapacity(h, w, blockSize, level, total).coefficient == cap.coefficient;
    assert UniformMessageDispatcher(h, w, blockSize, level, total, message).parts == Repeat(padded, total);
    UniformVoteRecovers(h, w, blockSize, level, total, message);
  }
}
