# Blind block-embedding steganography codec, modelled in Dafny

This project models the codec core of a steganography tool that hides a message in the
wavelet coefficients of an image and reads it back without the cover image. The model covers:

- **Block partitioning.** Coefficient planes are cropped, cut into square blocks and put back
  together: `stego/core/blocking.py`, `stego/coder/transform/blocking.py` and its copy
  `stego/transform/blocking.py`.
- **Message framing.**
  - MSB-first bits and NUL-separated fragment voting: `stego/core/message.py`.
  - Base-4 digits, four per byte, with zero-padding splitters: `stego/coder/message.py`.
  - The older always-padding framing: `stego/message.py`.
  - A bit-per-character coder: `Base2MessageCoder`.
- **Capacity and dispatch.** The capacity formula, and the dispatchers that tile
  `message + NUL` over the planes (`stego/core/coder.py`).
- **Block rules.**
  - The mean-reference bit rule of `stego/core/coder.py`.
  - The perimeter-mean rule of `RobustStegoCoder` (`stego/coder/image_coder.py`).
  - The modular base-4 perimeter rule of `stego/coder/mdle_coder.py` and its copy
    `stego/codec.py`.
  - The band loops that feed each rule from an iterator.
- **Voting.**
  - The per-position character vote and text splitter: `stego/image_coder.py`.
  - The most-frequent-fragment vote.
- **Colour-image orchestration** of `stego/core/multichannel_coder.py`. Colour conversion and
  the wavelet per channel are passed in as uninterpreted functions.
- **The reversible integer 5/3 lifting wavelet** (the JPEG 2000 filter of ISO/IEC 15444-1,
  Annex F) of `stego/transform/iwt.py`.
- **The bit-accuracy score** of `scripts/utils.py`.

The modules follow the source files:

| module | file | source |
|---|---|---|
| `Common` | common.dfy | matrices, chunking, tiling, blocks, iterator and list objects |
| `Voting` | voting.dfy | first-seen most-frequent value (`Counter.most_common`, `max` over a dict) |
| `CoreMessage` | core_message.dfy | stego/core/message.py |
| `CoreBlocking` | core_blocking.dfy | stego/core/blocking.py |
| `CoreCapacity` | core_coder.dfy | stego/core/coder.py, capacity and dispatch |
| `CoreEmbedding` | core_embedding.dfy | stego/core/coder.py, `modify_blocks` and `decode_blocks` |
| `Multichannel` | multichannel.dfy | stego/core/multichannel_coder.py |
| `CropBlocking` | crop_blocking.dfy | stego/coder/transform/blocking.py and stego/transform/blocking.py |
| `PerimeterCodec` | perimeter_codec.dfy | stego/coder/mdle_coder.py and stego/codec.py |
| `RobustCoder` | robust_coder.dfy | stego/coder/image_coder.py |
| `CoderMessage` | coder_message.dfy | stego/coder/message.py |
| `LegacyMessage` | legacy_message.dfy | stego/message.py |
| `LegacyImageCoder` | legacy_image_coder.dfy | stego/image_coder.py |
| `Iwt` | iwt.dfy | stego/transform/iwt.py |
| `Accuracy` | accuracy.dfy | scripts/utils.py |

**Representations.**
- Planes are `seq<seq<int>>` for the integer rules and the wavelet, and `seq<seq<real>>` for
  the mean rules. A Python exception becomes `None` or a failure constructor.
- Where the source changes state it becomes imperative Dafny:
  - a block written in place is an `array2`;
  - a list a callee extends is `Common.SharedList`;
  - the message iterator the band encoders draw from is `Common.MessageIterator`;
  - the source's loops are `while`/`for` loops, proved against the functions that specify
    them.

**Duplicated source code is modelled once.**
- stego/codec.py repeats stego/coder/mdle_coder.py.
- The `divide_image`, `stack_image` and `pad_image` of stego/transform/blocking.py repeat
  `perfect_divide_image`, `stack_image` and `pad_image` of stego/coder/transform/blocking.py.
- The three copies of `byte_to_dec_array` / `dec_array_to_byte` (stego/coder/message.py:1-18,
  the `Base4MessageCoder` static methods at stego/coder/message.py:57-73, and
  stego/message.py:1-18) are one definition.
- `StegoCoder` and `RobustStegoCoder` in stego/image_coder.py carry identical
  `find_original_string` and `split_list`.

**Where the code and its tests or stated intent disagree, the model follows the code.**
- stego/codec.py and stego/image_coder.py import `CropBlocker` from stego/transform/blocking.py,
  which does not define it. The model uses the `CropBlocker` of stego/coder/transform/blocking.py.
- stego/test/test_message.py passes `chain.from_iterable` of the flat digit list that
  `Base4MessageCoder.encode` returns, and `_split_list` then calls `len` on that iterator.
  That test cannot pass as written; `CoderMessage.Base4RoundTrip` states the round trip on the
  list itself.
- `get_capacity` groups `height // S * width // S // 8` left to right. When `S` does not divide
  the width this can exceed the number of blocks (`CoreCapacity.CapacityExceedsBlocks`).
- `encode_color_image` returns the stego image only.

## Model

| member | source | states |
|---|---|---|
| Common.Chunks | stego/coder/message.py:45 | `[arr[x:x+n] for x in range(0, len(arr), n)]`: the chunks concatenate to the list, all but the last are full, none is empty, and their count is the ceiling of length over size |
| Common.ChunksExact | stego/coder/message.py:45 | a length that is `n` times the size gives exactly `n` full chunks |
| Common.ChunksOfConcat | stego/coder/message.py:45 | chunking the concatenation of full chunks gives those chunks back |
| Common.TileAt | stego/core/coder.py:126 | entry `i` of `s * n` is `s[i % len(s)]` |
| Common.BlockAt | stego/core/blocking.py:24-28 | `img[i*bs:(i+1)*bs, j*bs:(j+1)*bs]` lies inside the plane, is `bs x bs` and holds the plane's cells at that offset |
| Common.BlockGrid | stego/coder/transform/blocking.py:53-60 | the `h//bs` by `w//bs` grid of `bs x bs` blocks, entry `(i, j)` being the block at that position |
| Common.MessageIterator.Next | stego/coder/mdle_coder.py:65 | `next(iterator)` gives the first remaining item and drops it, or `None` (`StopIteration`) when none is left, leaving the iterator empty |
| Voting.MostFrequent | stego/image_coder.py:29-31 | `None` only for an empty list; otherwise a value of highest count that comes first among those of highest count in the list |
| Voting.FirstMostFrequentUnique | stego/image_coder.py:29-31 | that choice is unique: two values that both satisfy it are equal |
| Voting.UnanimousVote | stego/image_coder.py:29-31 | a list of one repeated value votes for that value |
| CoreMessage.ToBits | stego/core/message.py:4-7 | the `n`-bit MSB-first expansion of `x < 2^n` has `n` entries, all 0 or 1, and reads back as `x` |
| CoreMessage.HornerInjective | stego/core/message.py:4-7 | two 0/1 lists of one length with the same value are equal |
| CoreMessage.BytesToBinary | stego/core/message.py:4-7 | 8 bits per byte, each 0 or 1, and bits `8k..8k+8` are byte `k` MSB first |
| CoreMessage.PackByte | stego/core/message.py:10-12 | a group of at most 8 bits, zero-padded on the right, is worth its own MSB-first value times `2 ** (8 - len)` |
| CoreMessage.HornerShift | stego/core/message.py:10-12 | `k` zero bits appended on the right multiply the MSB-first value by `2 ** k` |
| CoreMessage.BinaryToBytes | stego/core/message.py:10-12 | `ceil(n/8)` bytes, byte `k` being the MSB-first value of bits `8k..8k+8` |
| CoreMessage.HornerNormalises | stego/core/message.py:10-12 | any nonzero entry packs as a one |
| CoreMessage.BinaryToBytesPadded | stego/core/message.py:10-12 | zero-padding the last partial byte changes nothing: that is the padding `np.packbits` applies |
| CoreMessage.BinaryBytesRoundTrip | stego/core/message.py:4-12 | `binary_to_bytes(bytes_to_binary(b)) == b` for every byte string |
| CoreMessage.BytesBinaryRoundTrip | stego/core/message.py:4-12 | the other direction for 0/1 lists of whole bytes |
| CoreMessage.PackedPrefix | stego/core/message.py:10-12 | bits that begin with a message's bits pack to bytes that begin with the message |
| CoreMessage.Split | stego/core/message.py:16 | `message.split(b'\x00')` yields at least one piece and no piece holds a NUL |
| CoreMessage.JoinSplit | stego/core/message.py:16 | joining the pieces with NUL gives the buffer back |
| CoreMessage.SplitJoin | stego/core/message.py:16 | splitting the NUL-join of NUL-free pieces gives the pieces back |
| CoreMessage.SplitSep | stego/core/message.py:16 | splitting `a + NUL + b` is the split of `a` followed by that of `b` |
| CoreMessage.QualifyingMembers | stego/core/message.py:17 | the dict's keys are exactly the fragments longer than 5 bytes |
| CoreMessage.QualifyingCount | stego/core/message.py:17 | a qualifying fragment keeps its full occurrence count |
| CoreMessage.QualifyingOrder | stego/core/message.py:17-18 | qualifying fragments keep their first-seen order |
| CoreMessage.VoteOnFragments | stego/core/message.py:17-18 | a vote over the qualifying fragments picks a fragment of highest count, ties going to the fragment seen first |
| CoreMessage.ExtractRepeatingFragment | stego/core/message.py:15-19 | fails (`max` of an empty dict) iff no fragment is longer than 5 bytes; otherwise returns a NUL-free fragment longer than 5 bytes whose count is the highest, and no earlier qualifying fragment has that count |
| CoreBlocking.GetNewShape | stego/core/blocking.py:9-13 | each dimension becomes a multiple of the block size, no larger, and shrinks by less than the block size |
| CoreBlocking.CropImageToDivisible | stego/core/blocking.py:4-6 | returns that shape and the top-left sub-plane of that shape |
| CoreBlocking.Divide | stego/core/blocking.py:16-31 | `(h//bs)*(w//bs)` blocks, each `bs x bs`; block `k` is the block at row `k / (w//bs)` and column `k % (w//bs)` |
| CoreBlocking.DivideAt | stego/core/blocking.py:22-29 | block `i * (w//bs) + j` is the block at `(i, j)` |
| CoreBlocking.DivideImage | stego/core/blocking.py:16-31 | the nested loops that append blocks compute `Divide` |
| CoreBlocking.DivideIgnoresBorder | stego/core/blocking.py:18-19 | two planes that agree on the covered region divide the same: the border is never read |
| CoreBlocking.Merge | stego/core/blocking.py:34-50 | fails iff there is no block (`blocks[0]`), the block size is 0, or there are fewer blocks than the grid needs; otherwise an `h x w` plane |
| CoreBlocking.PasteBlock | stego/core/blocking.py:47 | the slice assignment writes the block over its square and leaves every other cell |
| CoreBlocking.MergeStep | stego/core/blocking.py:43-48 | one pass of the inner loop adds block `(i, j)` to the partial plane |
| CoreBlocking.MergeRow | stego/core/blocking.py:42-48 | the inner loop adds block row `i`, failing exactly when the blocks run out |
| CoreBlocking.MergeBlocks | stego/core/blocking.py:34-50 | the in-place fill of a zero plane computes `Merge` |
| CoreBlocking.MergeDivide | stego/core/blocking.py:16-50 | merging the division of a plane gives the plane on the covered region and zero on the border |
| CoreBlocking.MergeDivideExact | stego/core/blocking.py:16-50 | `merge_blocks(divide_image(p, s), p.shape) == p` when `s` divides both dimensions |
| CoreBlocking.MergeIgnoresExtraBlocks | stego/core/blocking.py:40-48 | blocks past `blocks_high * blocks_wide` are never read |
| CoreCapacity.GetCapacity | stego/core/coder.py:86-101 | the per-plane capacity is the number of whole bytes in the left-to-right bit count `(h // S) * w // S`, and the image capacity is that times the number of coefficients |
| CoreCapacity.InitialBlockSize | stego/core/coder.py:95 | `block_size * 2**level` is positive |
| CoreCapacity.CapacityIsBlockCount | stego/core/coder.py:95-101 | when `S` divides the width the per-plane capacity is the number of `S x S` blocks over 8 |
| CoreCapacity.CapacityExceedsBlocks | stego/core/coder.py:95-99 | for a 192 x 18 image with block size 3 and level 2 the capacity is 3 bytes (24 bits) while there are only 16 blocks |
| CoreCapacity.CapacityMonotoneInSize | stego/core/coder.py:95-100 | both capacities are non-decreasing in height and width |
| CoreCapacity.PlaneCapacityAntitone | stego/core/coder.py:97-99 | a larger `S` never gives a larger per-plane capacity |
| CoreCapacity.InitialBlockSizeMono | stego/core/coder.py:95 | `S` grows with the block size and the level |
| CoreCapacity.CapacityAntitoneInBlock | stego/core/coder.py:95-100 | both capacities are non-increasing in block size and level |
| CoreCapacity.Padded | stego/core/coder.py:125-126 | `message * fits + NUL * remainder` is exactly `capacity` bytes long |
| CoreCapacity.PaddedStartsWith | stego/core/coder.py:125-126 | and it begins with the message whenever the message fits once |
| CoreCapacity.MessageDispatcher | stego/core/coder.py:114-130 | `CapacityError` iff the image capacity is below `len(message)+1`; otherwise `len(coefficients)` parts of the per-plane capacity that concatenate to the padded `message + NUL` |
| CoreCapacity.UniformMessageDispatcher | stego/core/coder.py:145-160 | `CapacityError` iff the per-plane capacity is below `len(message)+1`; otherwise `len(coefficients)` identical parts of that capacity, each beginning with `message + NUL` |
| CoreCapacity.MessageConsolidator | stego/core/coder.py:163-179 | the joined buffer holds at most the capacity per part, and exactly that when no part is shorter |
| CoreCapacity.Trimmed | stego/core/coder.py:176-177 | one result per part, in order: a prefix of the part of at most the capacity, and the whole part when it is shorter |
| CoreCapacity.TrimmedFull | stego/core/coder.py:176-177 | parts of exactly the capacity are not changed by trimming |
| CoreCapacity.TrimmedLength | stego/core/coder.py:176-179 | the trimmed parts join to at most `n` bytes per part, exactly `n` per part when none is shorter |
| CoreCapacity.ConsolidatedAt | stego/core/coder.py:176-179 | with no part shorter than the capacity `n`, byte `j` of segment `i` of the joined buffer is byte `j` of part `i` |
| CoreCapacity.ConsolidateDispatch | stego/core/coder.py:176-179 | consolidating the dispatcher's parts gives back the padded `message + NUL` |
| CoreCapacity.ConsolidateUniform | stego/core/coder.py:176-179 | consolidating the uniform parts gives the padded message once per plane |
| CoreCapacity.SplitTile | stego/core/coder.py:126 | a tiling of `m + NUL` splits into copies of `m` |
| CoreCapacity.QualifyingPadded | stego/core/coder.py:125-126 | the fragments of the padded message longer than 5 bytes are the copies of `m`, when `m` is |
| CoreCapacity.DispatchVoteRecovers | stego/core/coder.py:118-130 | a NUL-free message longer than 5 bytes is recovered by consolidation and the fragment vote after a noiseless dispatch |
| CoreCapacity.DispatchVoteDropsShort | stego/core/coder.py:118-130 | a message of 5 bytes or fewer never qualifies, so the vote fails |
| CoreCapacity.UniformVoteRecovers | stego/core/coder.py:149-160 | the same recovery through the uniform dispatcher |
| CoreEmbedding.SetCentre | stego/core/coder.py:17-20 | only the cell `shape // 2` changes |
| CoreEmbedding.ModifiedBlocks | stego/core/coder.py:12-22 | fails where numpy would (no block, or more bits than blocks); otherwise the same number of blocks of the same shape |
| CoreEmbedding.ModifiedCell | stego/core/coder.py:15-22 | only the centres of the first `8 * len(message)` blocks change, each to the whole-block mean (old centre included) plus `alpha*(±bit_step)`; every other cell is unchanged |
| CoreEmbedding.ModifyBlocks | stego/core/coder.py:12-22 | the in-place writes into the block array compute `ModifiedBlocks` |
| CoreEmbedding.CopyIn | stego/core/coder.py:16 | a fresh 3-D array holding every block cell |
| CoreEmbedding.WriteCentres | stego/core/coder.py:17-20 | the centre cell of each of the first `len(bits)` blocks gets its target and every other cell is unchanged |
| CoreEmbedding.DecodedBits | stego/core/coder.py:29-34 | one 0/1 bit per block |
| CoreEmbedding.DecodeBlocks | stego/core/coder.py:25-37 | fails for no block; otherwise `ceil(n/8)` bytes |
| CoreEmbedding.SetCentreKeepsPerimeter | stego/core/coder.py:29-31 | writing the centre does not move the mean of the other cells |
| CoreEmbedding.MeanAbovePerimeter | stego/core/coder.py:19-31 | the whole-block mean exceeds the mean without the centre by `Gap` (the centre's excess over the other cells, divided by the cell count) |
| CoreEmbedding.DecodeModified | stego/core/coder.py:18-34 | the embedded block decodes as 1 iff `Gap + alpha*mv > 0`; a one-cell block always decodes as 0 |
| CoreEmbedding.BitRecovered | stego/core/coder.py:12-37 | a bit comes back iff `alpha*bit_step` outweighs the gap: `> -Gap` for a one, `>= Gap` for a zero |
| CoreEmbedding.DecodesMessage | stego/core/coder.py:34-36 | blocks whose first `8n` bits are the message's bits decode to bytes beginning with the message |
| CoreEmbedding.EmbedDecode | stego/core/coder.py:12-37 | if every bit is recovered, decoding the modified blocks gives bytes beginning with the message |
| CoreEmbedding.CentreOutweighsZero | stego/core/coder.py:19-20 | a zero block with centre 90, step 4 and alpha 1 gets a zero embedded and reads back a one |
| CoreEmbedding.ModifyBlockAroundPerimeter | stego/core/coder.py:19-20 | the rule with the decoder's reference (the mean without the centre) keeps the block's shape |
| CoreEmbedding.AroundPerimeterRecovers | stego/core/coder.py:29-34 | with that reference every bit comes back for any positive shift |
| CoreEmbedding.ModifiedBlocksAroundPerimeter | stego/core/coder.py:12-22 | `modify_blocks` with that reference fails and succeeds as the original does |
| CoreEmbedding.AroundPerimeterEmbedDecode | stego/core/coder.py:12-37 | with that reference every message that fits round-trips |
| Multichannel.ColourConversion | stego/core/multichannel_coder.py:8-17 | a listed name gives its code, any other name falls back to RGB to YCrCb, only "RGB" gives no code, and the inverse code is never chosen |
| Multichannel.ChannelIndex | stego/core/multichannel_coder.py:51 | Python indexing: defined iff `-n <= c < n`, negative positions counting from the end |
| Multichannel.Replace | stego/core/multichannel_coder.py:50-53 | the channel loop keeps the channel count or raises `IndexError` |
| Multichannel.ReplaceFails | stego/core/multichannel_coder.py:50-53 | it succeeds iff every listed index is in range |
| Multichannel.ReplaceFirstFailure | stego/core/multichannel_coder.py:50-53 | on failure it reports the first index that is out of range |
| Multichannel.ReplaceOutcome | stego/core/multichannel_coder.py:50-53 | the whole loop: success iff all indices are in range, then each channel encoded once per mention, else a failing index |
| Multichannel.ReplaceApplies | stego/core/multichannel_coder.py:50-53 | channel `k` is encoded once per time `use_channels` names it |
| Multichannel.UntouchedChannel | stego/core/multichannel_coder.py:50-53 | a channel not named in `use_channels` keeps its converted value |
| Multichannel.Cropped | stego/core/multichannel_coder.py:41 | the image cropped to multiples of `block_size * 2**level` |
| Multichannel.EncodeColorImage | stego/core/multichannel_coder.py:20-56 | the loop version computes `EncodeColourImage` |
| Multichannel.EncodeCapacityFirst | stego/core/multichannel_coder.py:41-48 | the `CapacityError` is raised iff the cropped image's per-plane capacity is below `len(message)+1`, before any channel is touched |
| Multichannel.EncodeResult | stego/core/multichannel_coder.py:41-55 | once the message fits: "RGB" fails in `cvtColor` with its `None` code; otherwise success iff every channel index is in range, the result being the YCrCb to RGB conversion of the merged channels, each encoded once per mention |
| Multichannel.DecodedPartsOrder | stego/core/multichannel_coder.py:82-84 | the parts are concatenated in `use_channels` order |
| Multichannel.DecodeColourImage | stego/core/multichannel_coder.py:59-86 | fails in `cvtColor` iff the colour space is "RGB"; a decoded message is NUL-free and longer than 5 bytes |
| Multichannel.DecodeColorImage | stego/core/multichannel_coder.py:59-86 | the loop version computes `DecodeColourImage` |
| Multichannel.DecodeRecovers | stego/core/multichannel_coder.py:78-86 | in any colour space other than "RGB", when every listed channel decodes to the uniform parts, the message is recovered |
| CropBlocking.FitSize | stego/coder/transform/blocking.py:29-36 | `d - d % bs` is a multiple of `bs`, no larger than `d`, and less than `bs` below it |
| CropBlocking.FitSizeLargest | stego/coder/transform/blocking.py:29-36 | and it is the largest such multiple |
| CropBlocking.CropToFit | stego/coder/transform/blocking.py:29-36 | the loop over dimensions crops the plane to those sizes, the top-left sub-plane |
| CropBlocking.PadAmount | stego/coder/transform/blocking.py:9-10 | `(bs - d % bs) % bs` is below `bs` and makes `d` a multiple |
| CropBlocking.PadAmountLeast | stego/coder/transform/blocking.py:9-10 | and no smaller amount does |
| CropBlocking.PadAmountMod | stego/coder/transform/blocking.py:9-10 | the expression the source evaluates equals that amount |
| CropBlocking.PaddingSize | stego/coder/transform/blocking.py:6-10 | the loop yields that amount for every dimension |
| CropBlocking.Reflect | stego/coder/transform/blocking.py:12-13 | the mirrored index `BORDER_REFLECT` reads lies in the plane and leaves inner indices alone |
| CropBlocking.PadImage | stego/coder/transform/blocking.py:5-14 | padding at the bottom and right only gives divisible dimensions and keeps the original top-left |
| CropBlocking.NpSplit | stego/coder/transform/blocking.py:19-20 | `np.split` into `n` parts succeeds iff `n > 0` divides the dimension, giving equal parts |
| CropBlocking.Stacked | stego/coder/transform/blocking.py:25-26 | `np.block` of a grid has the grid's total height and width |
| CropBlocking.StackSplit | stego/coder/transform/blocking.py:17-26 | stacking a split puts the plane back together |
| CropBlocking.PerfectDivide | stego/coder/transform/blocking.py:17-22 | on success, `h // bs` bands of `w // bs` parts, each part `h / (h // bs)` rows of `w / (w // bs)` pixels |
| CropBlocking.PerfectDivideDefined | stego/coder/transform/blocking.py:17-22 | `perfect_divide_image` is defined iff `h//bs` and `w//bs` are positive and divide `h` and `w`; in particular whenever `bs` divides both |
| CropBlocking.PerfectDivideExact | stego/coder/transform/blocking.py:17-46 | when `bs` divides both dimensions it agrees with `divide_image` |
| CropBlocking.PerfectDivideOddBlocks | stego/coder/transform/blocking.py:17-22 | a 10 x 10 plane with block size 4 is split into 5 x 5 blocks |
| CropBlocking.ExactDivide | stego/coder/transform/blocking.py:17-22 | the intended exact division (corrected member of the third Findings row): defined iff `bs` divides both dimensions, giving `h/bs` rows of `w/bs` blocks of `bs x bs`; `perfect_divide_image` as written, and its twin `divide_image` at stego/transform/blocking.py:15-20, are `PerfectDivide` |
| CropBlocking.ExactDivideStacks | stego/coder/transform/blocking.py:17-26 | wherever the exact division is defined, `perfect_divide_image` as written gives the same blocks, and `stack_image` of them is the plane |
| CropBlocking.CropDivide | stego/coder/transform/blocking.py:39-46 | on success, `h // bs` bands of `w // bs` blocks of exactly `bs x bs` |
| CropBlocking.CroppedPartSize | stego/coder/transform/blocking.py:29-46 | the cropped plane split into `h // bs` by `w // bs` parts has parts of exactly `bs x bs` |
| CropBlocking.CropDivideIsBlockGrid | stego/coder/transform/blocking.py:39-46 | crop then split is defined iff the plane is at least one block in each dimension, and is then the block grid |
| CropBlocking.Overlay | stego/coder/transform/blocking.py:64-66 | a copy of the base with the top-left overwritten keeps the base's shape |
| CropBlocking.OverlayOwnPart | stego/coder/transform/blocking.py:64-66 | writing a plane's own top-left back leaves it unchanged |
| CropBlocking.DivideStacked | stego/coder/transform/blocking.py:53-67 | dividing the result of `stack` gives the stacked grid back |
| CropBlocking.StackedCell | stego/coder/transform/blocking.py:62-67 | cell `(r, c)` of block `(i, j)` of the stacked plane is that cell of the grid |
| CropBlocking.CropBlocker.constructor | stego/coder/transform/blocking.py:50-51 | the blocker holds the image |
| CropBlocking.CropBlocker.Divide | stego/coder/transform/blocking.py:53-60 | defined iff the image is at least `bs` in each dimension, and then the row-major grid of `bs x bs` blocks of the cropped image |
| CropBlocking.CropBlocker.Stack | stego/coder/transform/blocking.py:62-67 | a copy of the image with the stacked grid written over its top-left, failing where the assignment does not fit |
| CropBlocking.StackDivide | stego/coder/transform/blocking.py:53-67 | `stack(divide(bs))` is the image, shape included |
| PerimeterCodec.Slot | stego/coder/mdle_coder.py:13 | every perimeter cell has a position in `coeffs_order` |
| PerimeterCodec.CoeffsOrderPerimeter | stego/coder/mdle_coder.py:13 | `coeffs_order` lists the 8 perimeter cells once each, from the top-left, each next to the one before it, clockwise |
| PerimeterCodec.Extraction | stego/coder/mdle_coder.py:30-31 | `(p + c) % 4` is a digit congruent to `p + c` |
| PerimeterCodec.Lcv | stego/coder/mdle_coder.py:34-35 | `(S - f) % 4` is the digit that moves `f` to `S` modulo 4 |
| PerimeterCodec.MoveRealisesLcv | stego/coder/mdle_coder.py:38 | `lcv_to_mv[v]` lies in -1..2 and is congruent to `v` |
| PerimeterCodec.Extract | stego/coder/mdle_coder.py:53-56 | 8 values, each in 0..3 |
| PerimeterCodec.Moves | stego/coder/mdle_coder.py:42-45 | 8 moves, each in {0, 1, 2, -1} |
| PerimeterCodec.ComputeMoves | stego/coder/mdle_coder.py:42-45 | the loop over the perimeter computes `Moves` |
| PerimeterCodec.Embedded | stego/coder/mdle_coder.py:41-50 | the embedded block is 3 x 3 |
| PerimeterCodec.EmbedChanges | stego/coder/mdle_coder.py:41-50 | the centre is unchanged and each perimeter cell moves by `lcv_to_mv[lcv(d, (p+c) % 4)]`, one of {0, 1, 2, -1} |
| PerimeterCodec.Embed | stego/coder/mdle_coder.py:41-50 | the in-place `block[idx] += mv` loop computes `Embedded` |
| PerimeterCodec.RuleDigit | stego/coder/mdle_coder.py:30-48 | one cell extracts `d % 4` after its move |
| PerimeterCodec.ExtractEmbed | stego/coder/mdle_coder.py:41-56 | extracting the embedded block gives every digit modulo 4 |
| PerimeterCodec.ExtractEmbedDigits | stego/coder/mdle_coder.py:41-56 | `extract(embed(block, data)) == data` for digits in 0..3 |
| PerimeterCodec.MaxOf | stego/coder/mdle_coder.py:22 | `max(U)` is an entry and bounds every entry |
| PerimeterCodec.CountReaching | stego/coder/mdle_coder.py:23-26 | the count is at most the number of differences |
| PerimeterCodec.CountReachingAll | stego/coder/mdle_coder.py:23-26 | all are counted iff all reach the bound |
| PerimeterCodec.CountReachingSome | stego/coder/mdle_coder.py:23-26 | one difference reaching the bound is counted |
| PerimeterCodec.IsEdgeBlock | stego/coder/mdle_coder.py:16-28 | the result is `C > T` for the count of differences reaching `max/4` |
| PerimeterCodec.CollectDifferences | stego/coder/mdle_coder.py:17-21 | the first loop collects the eight perimeter differences in `coeffs_order` order |
| PerimeterCodec.CountAtLeast | stego/coder/mdle_coder.py:24-27 | the second loop counts exactly the differences that reach `V` |
| PerimeterCodec.EdgeCountBounds | stego/coder/mdle_coder.py:16-27 | the count lies in 1..8, and is 8 iff every difference reaches a quarter of the largest |
| PerimeterCodec.FlatBlockIsEdge | stego/coder/mdle_coder.py:16-27 | a flat block counts 8, so it is an edge block for `T = 4` |
| PerimeterCodec.EmbedRow | stego/coder/mdle_coder.py:64-65 | the inner loop keeps the row's length and block shape |
| PerimeterCodec.EmbedGrid | stego/coder/mdle_coder.py:62-67 | the loops keep every row's length |
| PerimeterCodec.EncodedBand | stego/coder/mdle_coder.py:59-68 | defined iff the band is at least 3 x 3, and then of the band's shape |
| PerimeterCodec.EmbedGridShape | stego/coder/mdle_coder.py:59-68 | the grid keeps its shape |
| PerimeterCodec.EmbedGridNone | stego/coder/mdle_coder.py:62-67 | an exhausted iterator changes no block |
| PerimeterCodec.EncodeRow | stego/coder/mdle_coder.py:64-65 | the inner loop embeds one group per block while groups last, reports exhaustion, and consumes exactly the groups used |
| PerimeterCodec.EncodeGrid | stego/coder/mdle_coder.py:62-67 | the loops with their `break` compute `EmbedGrid` and leave the unused groups in the iterator |
| PerimeterCodec.EncodeBand | stego/coder/mdle_coder.py:59-68 | `encode_band` computes `EncodedBand` and consumes one group per block |
| PerimeterCodec.EmbedGridRowMajor | stego/coder/mdle_coder.py:62-67 | block `k` in row-major order embeds group `k` if there is one and is otherwise unchanged |
| PerimeterCodec.EncodeBandNothingLeft | stego/coder/mdle_coder.py:59-68 | with no groups left the band comes back unchanged |
| PerimeterCodec.DecodeRow | stego/coder/mdle_coder.py:77-78 | 8 digits per block |
| PerimeterCodec.DecodeRowLoop | stego/coder/mdle_coder.py:77-78 | the `extend` loop computes `DecodeRow` |
| PerimeterCodec.DecodedBand | stego/coder/mdle_coder.py:71-79 | defined iff the band is at least 3 x 3 |
| PerimeterCodec.DecodeBand | stego/coder/mdle_coder.py:71-79 | `decode_band` computes `DecodedBand` |
| PerimeterCodec.DecodeGridLength | stego/coder/mdle_coder.py:76-78 | 8 digits for every block of the grid |
| PerimeterCodec.DecodedBandLength | stego/coder/mdle_coder.py:71-79 | `8 * (h//3) * (w//3)` digits |
| PerimeterCodec.DecodeEmbedRow | stego/coder/mdle_coder.py:59-79 | decoding an embedded row gives the embedded groups, then the digits of the remaining blocks |
| PerimeterCodec.DecodeEmbedGrid | stego/coder/mdle_coder.py:59-79 | the same for a whole grid in row-major order |
| PerimeterCodec.DecodeEncodeBand | stego/coder/mdle_coder.py:59-79 | decoding an encoded band gives the embedded groups in row-major order, followed by the digits of the untouched blocks |
| RobustCoder.PerimeterMaskExcludesCentre | stego/coder/image_coder.py:64-68 | the mask is 3 x 3 and excludes exactly the centre |
| RobustCoder.PerimeterMeanCells | stego/coder/image_coder.py:119 | the masked mean is the sum of the 8 perimeter cells over 8 |
| RobustCoder.MeanIgnoresCentre | stego/coder/image_coder.py:119-130 | the masked mean does not depend on the centre |
| RobustCoder.EncodedBlock | stego/coder/image_coder.py:117-127 | the encoded block is 3 x 3 |
| RobustCoder.EncodeBlockCells | stego/coder/image_coder.py:117-127 | perimeter cells are untouched, and the centre is the perimeter mean `- mv*alpha` for 0, `+ mv*alpha` for 1, and the mean itself for any other value |
| RobustCoder.EncodeBlock | stego/coder/image_coder.py:117-127 | the in-place write of `block[1, 1]` computes `EncodedBlock` |
| RobustCoder.DecodeBlock | stego/coder/image_coder.py:129-137 | the result is 0 or 1 |
| RobustCoder.DecodeBlockMeaning | stego/coder/image_coder.py:129-137 | 1 iff the centre exceeds the perimeter mean, 0 otherwise, ties included |
| RobustCoder.DecodeEncodeBlock | stego/coder/image_coder.py:117-137 | a 1 comes back iff `mv*alpha > 0`, a 0 iff `mv*alpha >= 0`, and any other value decodes as 0 |
| RobustCoder.BlockRoundTrip | stego/coder/image_coder.py:117-137 | `decode_block(encode_block(b, d, mv, alpha)) == d` for `d` in {0, 1} and `mv*alpha > 0` |
| RobustCoder.EmbedRow | stego/coder/image_coder.py:144-146 | the inner loop keeps the row's length and block shape |
| RobustCoder.EmbedGrid | stego/coder/image_coder.py:142-148 | the loops keep every row's length |
| RobustCoder.EncodedBand | stego/coder/image_coder.py:139-149 | defined iff the band is at least 3 x 3, and then of the band's shape |
| RobustCoder.EmbedGridShape | stego/coder/image_coder.py:139-149 | the grid keeps its shape |
| RobustCoder.EmbedGridNone | stego/coder/image_coder.py:142-148 | an exhausted iterator changes no block |
| RobustCoder.EncodeRow | stego/coder/image_coder.py:144-146 | the inner loop encodes one item per block while items last, reports exhaustion, and consumes exactly the items used |
| RobustCoder.EncodeGrid | stego/coder/image_coder.py:142-148 | the loops with their `break` compute `EmbedGrid` and leave the unused items in the iterator |
| RobustCoder.EncodeBand | stego/coder/image_coder.py:139-149 | `encode_band` computes `EncodedBand` and consumes one item per block |
| RobustCoder.EmbedGridRowMajor | stego/coder/image_coder.py:142-148 | block `k` in row-major order encodes item `k` if there is one and is otherwise unchanged |
| RobustCoder.EncodeBandNothingLeft | stego/coder/image_coder.py:139-149 | with no items left the band comes back unchanged |
| RobustCoder.DecodeRow | stego/coder/image_coder.py:157-158 | one bit per block |
| RobustCoder.DecodeRowLoop | stego/coder/image_coder.py:157-158 | the `append` loop computes `DecodeRow` |
| RobustCoder.DecodedBand | stego/coder/image_coder.py:151-160 | defined iff the band is at least 3 x 3 |
| RobustCoder.DecodeBand | stego/coder/image_coder.py:151-160 | `decode_band` computes `DecodedBand` |
| RobustCoder.DecodeGridLength | stego/coder/image_coder.py:156-158 | one bit for every block of the grid |
| RobustCoder.DecodedBandLength | stego/coder/image_coder.py:151-160 | `(h//3) * (w//3)` bits |
| RobustCoder.DecodeEmbedRow | stego/coder/image_coder.py:139-160 | decoding an encoded row of 0/1 items gives the items used, then the bits of the remaining blocks |
| RobustCoder.DecodeEmbedGrid | stego/coder/image_coder.py:139-160 | the same for a whole grid in row-major order |
| RobustCoder.DecodeEncodeBand | stego/coder/image_coder.py:139-160 | decoding an encoded band gives the embedded bits in row-major order, followed by the bits of the untouched blocks |
| CoderMessage.ByteToDecArray | stego/coder/message.py:1-8 | 4 base-4 digits, most significant pair first, each in 0..3, whose weighted sum is the byte |
| CoderMessage.BitOrLow | stego/coder/message.py:12-16 | OR-ing a value into a shifted accumulator whose low bits are clear adds it |
| CoderMessage.DecArrayOfDigits | stego/coder/message.py:11-18 | for digits in 0..3, `dec_array_to_byte` is `64 d0 + 16 d1 + 4 d2 + d3`, which is below 256 |
| CoderMessage.ByteDigitsRoundTrip | stego/coder/message.py:1-18 | `dec_array_to_byte(byte_to_dec_array(b)) == b` for every byte |
| CoderMessage.DigitsByteRoundTrip | stego/coder/message.py:1-18 | the other direction for four digits in 0..3 |
| CoderMessage.DecDigits | stego/coder/message.py:21-25 | 4 digits per byte, each below 4 |
| CoderMessage.DigitArrays | stego/coder/message.py:24-25 | one digit array per byte |
| CoderMessage.DecDigitsArrays | stego/coder/message.py:23-25 | the digit list is the concatenation of the per-byte arrays |
| CoderMessage.DecDigitsAppend | stego/coder/message.py:23-25 | the digits of a concatenation are the concatenated digits |
| CoderMessage.EncodeDigits | stego/coder/message.py:23-25 | the `extend` loop computes `DecDigits` |
| CoderMessage.Padding | stego/coder/message.py:43-44 | below the chunk size, makes the length a multiple, and is zero iff it already is one |
| CoderMessage.Padded | stego/coder/message.py:41-45 | the list followed by fewer than `size` zeros, a multiple of `size` long, and unchanged iff the length already is one |
| CoderMessage.SplitList | stego/coder/message.py:41-45 | `_split_list` pads the caller's list in place and returns its chunks |
| CoderMessage.SplitListChunks | stego/coder/message.py:41-45 | `ceil(n/size)` chunks, all full, concatenating to the padded list |
| CoderMessage.MessageToDec | stego/coder/message.py:21-27 | the loop and the splitter compute `EncodedMessage` |
| CoderMessage.EncodedMessageShape | stego/coder/message.py:21-27 | `ceil(n/2)` chunks of 8 digits: the message's digits, then 4 zeros when `n` is odd |
| CoderMessage.ToBytes | stego/coder/message.py:38 | `bytes(dec_list)` succeeds iff every value is below 256, and then keeps the values |
| CoderMessage.ChunksToValues | stego/coder/message.py:35-36 | the loop gives one `dec_array_to_byte` value per chunk, in order |
| CoderMessage.DecToMessage | stego/coder/message.py:30-38 | `dec_to_message` computes `DecodedMessage` and leaves the caller's list alone |
| CoderMessage.DecodedDigits | stego/coder/message.py:30-38 | digits below 4 always decode: `ceil(n/4)` bytes, byte `i` the weighted sum of chunk `i` |
| CoderMessage.Base4RoundTrip | stego/coder/message.py:75-90 | `Base4MessageCoder.decode(encode(m)) == m` on bytes, and the splitter then pads nothing |
| CoderMessage.Base4Encode | stego/coder/message.py:75-81 | the encoder's loop computes `DecDigits` |
| CoderMessage.Base4Decode | stego/coder/message.py:83-90 | the decoder computes `DecodedMessage` and pads the caller's list to a multiple of 4 |
| CoderMessage.MessageRoundTrip | stego/coder/message.py:21-45 | `dec_to_message(chain(message_to_dec(m)))` is `m`, plus one NUL byte when `m` has odd length |
| CoderMessage.MessageRoundTripEven | stego/coder/message.py:21-45 | for an even length it is exactly `m` |
| CoderMessage.BinDigits | stego/coder/message.py:97-98 | `bin(av)` without `0b`: at least one 0/1 digit, reading back as `av`, with a leading one above 1 |
| CoderMessage.BinDigitsLength | stego/coder/message.py:97-98 | a value below `2^k` takes at most `k` digits |
| CoderMessage.RJust8 | stego/coder/message.py:99 | `rjust(8, '0')` gives at least 8 entries: zeros, then the digits |
| CoderMessage.CodePointBits | stego/coder/message.py:95-102 | a code point below 256 becomes its 8-bit MSB-first expansion |
| CoderMessage.Base2Encode | stego/coder/message.py:94-107 | every entry is a 0 or a 1 |
| CoderMessage.Base2EncodeLatin1 | stego/coder/message.py:94-107 | for code points below 256, 8 MSB-first bits per character |
| CoderMessage.SmallChunk | stego/coder/message.py:118-121 | a chunk of at most 8 bits is below 256 |
| CoderMessage.DecimalDigits | stego/coder/message.py:114 | `str(b)` of a non-negative entry: decimal digits that read back as `b` |
| CoderMessage.ChunkValue | stego/coder/message.py:114-118 | `int('0b' + ''.join(str(b) ...), 2)` succeeds iff the chunk is non-empty and every entry is non-negative with only 0 and 1 among its decimal digits; a 0/1 chunk gives its MSB-first value |
| CoderMessage.JoinedBits | stego/coder/message.py:114-118 | for a 0/1 chunk `str` gives the entries themselves, so the joined numeral is the chunk |
| CoderMessage.Chr | stego/coder/message.py:121 | `chr` succeeds exactly on code points, giving the character of that value |
| CoderMessage.Base2Decode | stego/coder/message.py:109-126 | succeeds iff every chunk of 8 is read by `int` and accepted by `chr`, one character per chunk; a 0/1 list always decodes, each character being its chunk's MSB-first value |
| CoderMessage.BitChunksDecode | stego/coder/message.py:111-121 | every chunk of a 0/1 list is read as its MSB-first value, a character below 256 |
| CoderMessage.Base2DecodeTen | stego/coder/message.py:114-121 | `[10]` is the numeral `0b10` and decodes to the character 2 |
| CoderMessage.Base2DecodeRejects | stego/coder/message.py:114-118 | `[2]` and `[-1]` make `int` raise |
| CoderMessage.Base2RoundTrip | stego/coder/message.py:94-126 | `decode(encode(s)) == s` for code points below 256 |
| CoderMessage.Base2RoundTripBits | stego/coder/message.py:94-126 | `encode(decode(b)) == b` for 0/1 lists of whole bytes |
| LegacyMessage.AlwaysPadding | stego/message.py:43 | between 1 and `size` zeros, exactly `size` iff the length is already a multiple |
| LegacyMessage.AlwaysPadded | stego/message.py:41-44 | the list strictly grows to a multiple of `size`, followed by zeros |
| LegacyMessage.SplitList | stego/message.py:41-44 | `_split_list` pads the caller's list in place and returns its chunks |
| LegacyMessage.SplitListChunks | stego/message.py:41-44 | `n // size + 1` chunks, all full, concatenating to the padded list |
| LegacyMessage.MessageToDec | stego/message.py:21-27 | the loop and the splitter compute `EncodedMessage` |
| LegacyMessage.EncodedMessageShape | stego/message.py:21-27 | `4n // 8 + 1` chunks of 8: the message's digits, then 4 zeros for odd `n` and 8 for even `n` |
| LegacyMessage.DecToMessage | stego/message.py:30-38 | `int()` of every entry into a fresh list, then padding and decoding |
| LegacyMessage.ZeroDigits | stego/message.py:1-8 | zero bytes have only zero digits |
| LegacyMessage.DecodedAsCoder | stego/message.py:30-44 | the always-padding decoder reads whole chunks as the other decoder reads them with four more zeros |
| LegacyMessage.DecodeWholeBytes | stego/message.py:30-44 | decoding the digits of whole bytes adds one NUL byte |
| LegacyMessage.MessageRoundTrip | stego/message.py:21-44 | `dec_to_message(chain(message_to_dec(m)))` is `m` plus three NUL bytes for even `n` and plus two for odd `n` |
| LegacyMessage.MessageRoundTripGrows | stego/message.py:21-44 | so it never equals `m` |
| LegacyImageCoder.Column | stego/image_coder.py:29 | `[string[i] for string in strings]` |
| LegacyImageCoder.Vote | stego/image_coder.py:29-31 | `most_common(1)[0][0]` is the first-seen character of highest count in the column |
| LegacyImageCoder.FindOriginalString | stego/image_coder.py:22-38 | raises `IndexError` iff the list is empty or a string is shorter than the first; otherwise a string of the first one's length whose every position holds that column's vote |
| LegacyImageCoder.VoteUnique | stego/image_coder.py:29-31 | the vote is the only character satisfying that rule |
| LegacyImageCoder.UnanimousPosition | stego/image_coder.py:29-31 | where every string agrees, that character is chosen |
| LegacyImageCoder.UnanimousCopies | stego/image_coder.py:22-38 | identical copies vote for their common text |
| LegacyImageCoder.SplitText | stego/image_coder.py:61-65 | the `"" * k` padding appends nothing: consecutive non-empty slices of `sublist_size`, only the last possibly shorter, concatenating to the text |
| LegacyImageCoder.DecodeBand | stego/image_coder.py:152-160 | defined iff the band is at least 3 x 3, and then always the empty list |
| Iwt.Evens | stego/transform/iwt.py:7 | `c[0::2]` has `ceil(n/2)` entries |
| Iwt.Odds | stego/transform/iwt.py:8 | `c[1::2]` has `n//2` entries |
| Iwt.Interleave | stego/transform/iwt.py:33 | the interleaving is twice as long as a half |
| Iwt.InterleaveAt | stego/transform/iwt.py:33 | its entries are `s0, d0, s1, d1, ...` |
| Iwt.Iwt53 | stego/transform/iwt.py:6-19 | defined iff the length is even and positive (numpy raises otherwise), and then two halves of `n/2` each |
| Iwt.Iwt53Equations | stego/transform/iwt.py:11-17 | the predict step `d[n] = c[2n+1] - floor((c[2n]+c[2n+2])/2)`, the last `d = c[2l-1] - c[2l-2]`, and the update step `s[0] = c[0] + floor((d[0]+1)/2)`, `s[n] = c[2n] + floor((d[n-1]+d[n]+2)/4)` |
| Iwt.Iiwt53 | stego/transform/iwt.py:22-35 | defined iff the halves are non-empty, and then twice their length |
| Iwt.Iiwt53Equations | stego/transform/iwt.py:25-33 | the even output samples undo the update and the odd ones undo the predict step, in the interleaved layout |
| Iwt.IiwtEven | stego/transform/iwt.py:25-27 | sample `2n` of the inverse is the smooth part less the rounded update |
| Iwt.IiwtOdd | stego/transform/iwt.py:29-33 | sample `2n + 1` is the detail plus the floor of its even neighbours' mean, the last one plus its left neighbour |
| Iwt.Unlift | stego/transform/iwt.py:25-31 | undoing update then predict gives both halves back |
| Iwt.HalvesInterleave | stego/transform/iwt.py:7-8 | interleaving the halves of an even-length signal gives the signal |
| Iwt.PerfectReconstruction | stego/transform/iwt.py:6-35 | `iiwt53(*iwt53(c)) == c` for every integer signal of even length |
| Iwt.InverseThenForward | stego/transform/iwt.py:6-35 | `iwt53(iiwt53(s, d)) == (s, d)` for equal non-empty halves, so the transform is a bijection |
| Accuracy.TileTo | scripts/utils.py:78-82 | the reference repeated and cut to exactly the retrieved length, entry `i` being `payload1[i % len(payload1)]` |
| Accuracy.MatchCount | scripts/utils.py:92 | at most the length, and equal to it iff the two bit lists are equal |
| Accuracy.CalculateAccuracy | scripts/utils.py:77-95 | `ZeroDivisionError` iff the reference is empty, NaN iff only the retrieved payload is empty, and otherwise a fraction in [0, 1] |
| Accuracy.Ratio | scripts/utils.py:95 | a share of a positive whole lies in [0, 1] and is 1 only for the whole |
| Accuracy.PerfectAccuracy | scripts/utils.py:77-95 | the accuracy is 1 iff the retrieved payload is the reference repeated to its length |
| Accuracy.CopiesScoreOne | scripts/utils.py:77-95 | whole copies of the reference score 1 |

## Left out

- Wavelet and colour libraries are not modelled: pywt `wavedecn`/`waverecn`, the `Dwt`/`Iwt`
  classes, the cv2 colour conversions, split and merge. `Multichannel` takes them as
  uninterpreted functions.
- Clipping the reconstructed image to `uint8` and `np.rint` scaling are floating-point pixel
  handling and are not modelled.
- The per-coefficient `encode` / `decode` loops of stego/core/coder.py:40-83 call pywt, so the
  model does not cover them. `Multichannel` receives them as the `encode` and `decode` of a
  channel.
- JPEG compression (`compress_image`) and mozjpeg are external codecs and file I/O.
- Reed–Solomon coding, the `StegoCoder` / `MdleCoder` encode and decode methods, and main.py are
  foreign library calls.
- The broken imports and calls are only noted: `mdle_codec`, `loop_message`,
  `find_original_string`, `split_list`, `encode_message` and `decode_message` from
  stego/coder/message.py, which does not define them, and `embed` in stego/image_coder.py. The
  model has the block rules only, not these call sites.
- Float statistics are not modelled: `sigma`, `get_diffs`, `get_mvs`, stego/core/metrics.py,
  `calculate_percentile_threshold`.
- The legacy DCT encoders, the GUI, the CLI, the configuration and the batch scripts are not
  modelled.
- Text is modelled as bytes. `bytes(msg, 'utf-8')` becomes the message's bytes, and
  `.decode('utf-8', errors='ignore')` keeps the decoded bytes; a NUL byte is valid UTF-8, so
  the NUL bytes the round-trip lemmas produce survive decoding. Invalid sequences that the
  decoding would drop are not modelled.
- `Base2MessageCoder` works on code points (`seq<char>`). Its round trip is stated for code
  points below 256; above that `bin` gives more than eight digits.
- CoderMessage.Chr, CoderMessage.Base2Decode: Python's `chr` also accepts the surrogates
  0xD800..0xDFFF, which Dafny's `char` cannot hold, so a chunk of that value is modelled as a
  failure. `OverflowError` and `ValueError` of `chr` are both failure.
- Machine widths are not modelled: integers are unbounded and coefficients are real. `uint8`
  wrap-around, float rounding in `np.nanmean`, and float comparisons do not arise.
- CoderMessage.DecArrayToByte: defined for non-negative digits only. A negative digit
  (Python's `<<` and `|` on negative ints) is outside the model.
- `int()` of float coefficients in `dec_to_message` is not modelled: the model's digits are
  already integers.
- CoderMessage.Padding: requires a positive chunk size. The source uses only 4 and 8, and `% 0`
  would raise.
- Iwt.Iiwt53: requires halves of equal length. numpy broadcasting of mismatched halves is not
  modelled.
- The `print` of a length mismatch in `calculate_accuracy` is output only.
- Numpy views are value semantics in the model: a block slice written by `embed` or
  `encode_block` is a fresh value put back into the grid, not a view into the band.
- Python's `blocks[j][k] = ...` on a list of numpy views is therefore modelled as a grid update.
- CoreCapacity.GetCapacity: requires a positive block size. `block_size` 0 makes
  `block_size * 2**level` zero and `get_capacity` raises `ZeroDivisionError`; that error is
  not modelled.
- Multichannel.EncodeColorImage, Multichannel.DecodeColorImage: `cv2.cvtColor` is an
  uninterpreted total function for every conversion code except the `None` stored for "RGB",
  which is modelled as the `ConversionFailure` the call raises; what cv2 does with an image of
  the wrong channel count is not modelled.
- CoreBlocking.Merge: requires square blocks of one size, as `divide_image` makes them. Ragged
  block lists that numpy would broadcast or reject are not modelled.
- CropBlocking.PadImage: requires a non-empty plane; `cv2.BORDER_REFLECT` on an empty image is
  cv2's business.
- CoreEmbedding.DecodeBlocks: the NaN written into the centre is modelled as leaving the
  centre out of the mean; `np.nanmean` over an all-NaN one-cell block (NaN, then bit 0) is
  modelled as bit 0.

## Findings

| source | as written | input that shows it | evidently intended | confidence | as-written member | corrected member |
|---|---|---|---|---|---|---|
| stego/message.py:43 | `_split_list` always appends `size - len % size` zeros, a whole chunk of them when the length is already a multiple | the test message "v89 wib fkj ghf 20" (18 bytes) of stego/test_message.py:8-14 decodes with three NUL bytes appended | pad only when the length is not a multiple, as stego/coder/message.py:43-44 does, so that the test's equality holds | medium, not executed | LegacyMessage.MessageRoundTripGrows | CoderMessage.MessageRoundTripEven |
| stego/core/coder.py:19 | the encoder's reference mean includes the old centre, while the decoder's (line 30-31) excludes it | a 3 x 3 block of zeros with centre 90, bit 0, `bit_step` 4, `alpha` 1: the centre becomes 10 - 4 = 6, above the perimeter mean 0, so it reads back as 1 | the same reference on both sides, the mean of the other cells, with which every bit round-trips | medium, not executed | CoreEmbedding.CentreOutweighsZero | CoreEmbedding.AroundPerimeterEmbedDecode |
| stego/coder/transform/blocking.py:17-22 | `perfect_divide_image` splits into `h // bs` equal parts, so a size that `bs` does not divide gives larger blocks instead of failing | a 10 x 10 plane with `block_size` 4 gives a 2 x 2 grid of 5 x 5 blocks | blocks of exactly `bs x bs`, and failure unless `bs` divides both dimensions | low, not executed | CropBlocking.PerfectDivideOddBlocks | CropBlocking.ExactDivideStacks |
