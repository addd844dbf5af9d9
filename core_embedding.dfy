/** The single-bit mean-reference rule of the wavelet codec (stego/core/coder.py, lines
    12-37): a block's centre coefficient is set above or below a mean to carry one bit, and
    read back by comparing the centre with the mean of the other coefficients. Coefficients
    are exact reals; the wavelet transform around the rule is not part of this module. */
module CoreEmbedding {
  import opened Common
  import opened CoreMessage

  /** One block of coefficients. */
  type Block = seq<seq<real>>

  /** `np.array(blocks)` needs blocks of one shape; blocks from `divide_image` have at least
      one row and one column. */
  ghost predicate Uniform(blocks: seq<Block>) {
    blocks != [] ==>
      |blocks[0]| > 0 && |blocks[0][0]| > 0 && Shaped(blocks, |blocks[0]|, |blocks[0][0]|)
  }

  /** Every block has `rows` rows of `cols` coefficients. */
  ghost predicate Shaped(blocks: seq<Block>, rows: nat, cols: nat) {
    forall k :: 0 <= k < |blocks| ==>
      |blocks[k]| == rows && forall i :: 0 <= i < rows ==> |blocks[k][i]| == cols
  }

  function RowSum(row: seq<real>): real {
    if row == [] then 0.0 else row[0] + RowSum(row[1..])
  }

  /** The sum of all coefficients of a block. */
  function Sum(b: Block): real {
    if b == [] then 0.0 else RowSum(b[0]) + Sum(b[1..])
  }

  /** Number of coefficients of a block with at least one row. */
  function Cells(b: Block): nat
    requires b != []
  {
    |b| * |b[0]|
  }

  /** `np.nanmean(block)` over all cells, the centre included. */
  function Mean(b: Block): real
    requires b != [] && |b[0]| > 0
  {
    MulMono(1, |b|, |b[0]|);
    Sum(b) / (Cells(b) as real)
  }

  /** The centre `block[h // 2, w // 2]`. */
  function Centre(b: Block): real
    requires IsMatrix(b, |b|, Width(b)) && b != [] && |b[0]| > 0
  {
    b[|b| / 2][|b[0]| / 2]
  }

  /** The block with its centre replaced by `v`. */
  function SetCentre(b: Block, v: real): (r: Block)
    requires IsMatrix(b, |b|, Width(b)) && b != [] && |b[0]| > 0
    ensures IsMatrix(r, |b|, |b[0]|)
    ensures forall i, j :: 0 <= i < |b| && 0 <= j < |b[0]| ==>
              r[i][j] == if i == |b| / 2 && j == |b[0]| / 2 then v else b[i][j]
  {
    b[|b| / 2 := b[|b| / 2][|b[0]| / 2 := v]]
  }

  /** `message_bin * bit_step * 2 - bit_step`: `+bit_step` for a one, `-bit_step` for a zero. */
  function Mv(bit: int, bitStep: nat): real {
    (bit * bitStep * 2 - bitStep) as real
  }

  /** What `modify_blocks` writes into one block: the centre becomes the whole-block mean (the
      old centre included) plus `alpha * mv`. */
  function ModifyBlock(b: Block, bit: int, bitStep: nat, alpha: real): Block
    requires IsMatrix(b, |b|, Width(b)) && b != [] && |b[0]| > 0
  {
    SetCentre(b, Target(b, bit, bitStep, alpha))
  }

  /** The value written into the centre: `mean + alpha * mv`. */
  function Target(b: Block, bit: int, bitStep: nat, alpha: real): real
    requires b != [] && |b[0]| > 0
  {
    Mean(b) + alpha * Mv(bit, bitStep)
  }

  /** `modify_blocks`: the first `8 * len(message)` blocks carry the message bits MSB first.
      It fails (`None`) for an empty block list (`blocks.shape[1]` raises) and for fewer blocks
      than bits (the assignment cannot broadcast). */
  function ModifiedBlocks(message: seq<Byte>, blocks: seq<Block>, bitStep: nat, alpha: real): (r: Option<seq<Block>>)
    requires Uniform(blocks)
    ensures r.None? <==> blocks == [] || 8 * |message| > |blocks|
    ensures r.Some? ==> |r.value| == |blocks|
    ensures r.Some? ==> Shaped(r.value, |blocks[0]|, |blocks[0][0]|) && Uniform(r.value)
  {
    if blocks == [] || 8 * |message| > |blocks| then None
    else
      var bits := BytesToBinary(message);
      Some(seq(|blocks|, k requires 0 <= k < |blocks| =>
        if k < |bits| then ModifyBlock(blocks[k], bits[k], bitStep, alpha) else blocks[k]))
  }

  /** Cell by cell, `modify_blocks` rewrites only the centres of the first `8 * len(message)`
      blocks, each to its block's mean plus `alpha * mv` of its bit. */
  lemma ModifiedCell(message: seq<Byte>, blocks: seq<Block>, bitStep: nat, alpha: real, k: nat, i: nat, j: nat)
    requires Uniform(blocks) && blocks != [] && 8 * |message| <= |blocks|
    requires k < |blocks| && i < |blocks[0]| && j < |blocks[0][0]|
    ensures var r := ModifiedBlocks(message, blocks, bitStep, alpha).value;
      i < |r[k]| && j < |r[k][i]| &&
      r[k][i][j] ==
        if k < 8 * |message| && i == |blocks[0]| / 2 && j == |blocks[0][0]| / 2
        then Target(blocks[k], BytesToBinary(message)[k], bitStep, alpha)
        else blocks[k][i][j]
  {
    var bits := BytesToBinary(message);
    var r := ModifiedBlocks(message, blocks, bitStep, alpha).value;
    assert IsMatrix(blocks[k], |blocks[0]|, |blocks[0][0]|);
    if k < |bits| {
      assert r[k] == ModifyBlock(blocks[k], bits[k], bitStep, alpha);
    } else {
      assert r[k] == blocks[k];
    }
  }

  /** `modify_blocks` itself: the block list copied into a 3-D array whose centre column of
      the first `8 * len(message)` blocks is overwritten in one vectorised assignment. */
  method ModifyBlocks(message: seq<Byte>, blocks: seq<Block>, bitStep: nat, alpha: real)
    returns (result: Option<seq<Block>>)
    requires Uniform(blocks)
    ensures result == ModifiedBlocks(message, blocks, bitStep, alpha)
  {
    if blocks == [] {
      return None;
    }
    var messageBin := BytesToBinary(message);
    var n, rows, cols := |blocks|, |blocks[0]|, |blocks[0][0]|;
    if |messageBin| > n {
      return None;
    }
    var arr := CopyIn(blocks, rows, cols);
    WriteCentres(arr, blocks, messageBin, bitStep, alpha);
    var out := Snapshot(arr);
    var intended := ModifiedBlocks(message, blocks, bitStep, alpha).value;
    forall k, i, j | 0 <= k < n && 0 <= i < rows && 0 <= j < cols
      ensures out[k][i][j] == intended[k][i][j]
    {
      ModifiedCell(message, blocks, bitStep, alpha, k, i, j);
    }
    SameCells(out, intended, rows, cols);
    return Some(out);
  }

  /** `np.array(blocks)`: a fresh 3-D array holding the blocks. */
  method CopyIn(blocks: seq<Block>, rows: nat, cols: nat) returns (arr: array3<real>)
    requires Shaped(blocks, rows, cols)
    ensures fresh(arr) && arr.Length0 == |blocks| && arr.Length1 == rows && arr.Length2 == cols
    ensures forall k, i, j :: 0 <= k < |blocks| && 0 <= i < rows && 0 <= j < cols ==> arr[k, i, j] == blocks[k][i][j]
  {
    arr := new real[|blocks|, rows, cols];
    forall k, i, j | 0 <= k < |blocks| && 0 <= i < rows && 0 <= j < cols {
      arr[k, i, j] := blocks[k][i][j];
    }
  }

  /** `blocks[:len(bits), center, center] = ...`: the centre cell of each of the first
      `len(bits)` blocks receives its target; every other cell keeps its value. */
  method WriteCentres(arr: array3<real>, blocks: seq<Block>, bits: seq<int>, bitStep: nat, alpha: real)
    requires |bits| <= |blocks| == arr.Length0 && Shaped(blocks, arr.Length1, arr.Length2)
    requires arr.Length1 > 0 && arr.Length2 > 0
    modifies arr
    ensures forall k, i, j :: 0 <= k < arr.Length0 && 0 <= i < arr.Length1 && 0 <= j < arr.Length2 ==>
      arr[k, i, j] == if k < |bits| && i == arr.Length1 / 2 && j == arr.Length2 / 2
        then Target(blocks[k], bits[k], bitStep, alpha) else old(arr[k, i, j])
  {
    var ci, cj := arr.Length1 / 2, arr.Length2 / 2;
    forall k | 0 <= k < |bits| {
      arr[k, ci, cj] := Target(blocks[k], bits[k], bitStep, alpha);
    }
  }

  /** The blocks held by a 3-D array. */
  method Snapshot(arr: array3<real>) returns (out: seq<Block>)
    ensures |out| == arr.Length0
    ensures Shaped(out, arr.Length1, arr.Length2)
    ensures forall k, i, j :: 0 <= k < arr.Length0 && 0 <= i < arr.Length1 && 0 <= j < arr.Length2 ==>
              out[k][i][j] == arr[k, i, j]
  {
    out := seq(arr.Length0, k requires 0 <= k < arr.Length0 reads arr =>
             seq(arr.Length1, i requires 0 <= i < arr.Length1 reads arr =>
               seq(arr.Length2, j requires 0 <= j < arr.Length2 reads arr => arr[k, i, j])));
  }

  /** Block lists of one shape with equal cells are equal. */
  lemma SameCells(a: seq<Block>, b: seq<Block>, rows: nat, cols: nat)
    requires |a| == |b|
    requires Shaped(a, rows, cols) && Shaped(b, rows, cols)
    requires forall k, i, j :: 0 <= k < |a| && 0 <= i < rows && 0 <= j < cols ==> a[k][i][j] == b[k][i][j]
    ensures a == b
  {
    forall k | 0 <= k < |a|
      ensures a[k] == b[k]
    {
      forall i | 0 <= i < rows
        ensures a[k][i] == b[k][i]
      {
      }
    }
  }

  /** The mean `decode_blocks` compares against: `np.nanmean` once the centre is NaN, i.e.
      the mean of the other coefficients. */
  function PerimeterMean(b: Block): real
    requires IsMatrix(b, |b|, Width(b)) && b != [] && |b[0]| > 0 && Cells(b) > 1
  {
    (Sum(b) - Centre(b)) / ((Cells(b) - 1) as real)
  }

  /** The bit `decode_blocks` reads from one block: one iff the centre exceeds the mean of the
      other coefficients. A one-cell block has no other coefficient; the NaN mean makes the
      comparison false, so it reads as zero. */
  function DecodeBit(b: Block): int
    requires IsMatrix(b, |b|, Width(b)) && b != [] && |b[0]| > 0
  {
    if Cells(b) <= 1 then 0
    else if Centre(b) - PerimeterMean(b) > 0.0 then 1 else 0
  }

  /** `decode_blocks`: one bit per block, packed MSB first. An empty list fails (`None`). */
  function DecodeBlocks(blocks: seq<Block>): (r: Option<seq<Byte>>)
    requires Uniform(blocks)
    ensures r.None? <==> blocks == []
    ensures r.Some? ==> |r.value| == (|blocks| + 7) / 8
  {
    if blocks == [] then None
    else Some(BinaryToBytes(DecodedBits(blocks)))
  }

  function DecodedBits(blocks: seq<Block>): (bits: seq<int>)
    requires Uniform(blocks)
    ensures |bits| == |blocks| && IsBits(bits)
  {
    seq(|blocks|, k requires 0 <= k < |blocks| => DecodeBit(blocks[k]))
  }

  /** Replacing one coefficient of a row changes its sum by the difference. */
  lemma {:induction false} RowSumUpdate(row: seq<real>, j: nat, v: real)
    requires j < |row|
    ensures RowSum(row[j := v]) == RowSum(row) - row[j] + v
  {
    if j == 0 {
      assert row[j := v][1..] == row[1..];
    } else {
      assert row[j := v][1..] == row[1..][j - 1 := v];
      RowSumUpdate(row[1..], j - 1, v);
    }
  }

  /** Replacing one row of a block changes its sum by the difference of the row sums. */
  lemma {:induction false} SumUpdate(b: Block, i: nat, row: seq<real>)
    requires i < |b|
    ensures Sum(b[i := row]) == Sum(b) - RowSum(b[i]) + RowSum(row)
  {
    if i == 0 {
      assert b[i := row][1..] == b[1..];
    } else {
      assert b[i := row][1..] == b[1..][i - 1 := row];
      SumUpdate(b[1..], i - 1, row);
    }
  }

  /** Setting the centre keeps the other coefficients: the sum changes by the difference, the
      shape and the mean of the other coefficients stay. */
  lemma SetCentreKeepsPerimeter(b: Block, v: real)
    requires IsMatrix(b, |b|, Width(b)) && b != [] && |b[0]| > 0
    ensures Sum(SetCentre(b, v)) == Sum(b) - Centre(b) + v
    ensures Centre(SetCentre(b, v)) == v && Cells(SetCentre(b, v)) == Cells(b)
    ensures Cells(b) > 1 ==> PerimeterMean(SetCentre(b, v)) == PerimeterMean(b)
  {
    SetCentreSum(b, v);
    var r := SetCentre(b, v);
    assert Centre(r) == v && |r| == |b| && |r[0]| == |b[0]|;
  }

  /** Setting the centre changes the sum by the difference. */
  lemma SetCentreSum(b: Block, v: real)
    requires IsMatrix(b, |b|, Width(b)) && b != [] && |b[0]| > 0
    ensures Sum(SetCentre(b, v)) == Sum(b) - Centre(b) + v
  {
    var i, j := |b| / 2, |b[0]| / 2;
    RowSumUpdate(b[i], j, v);
    SumUpdate(b, i, b[i][j := v]);
  }

  /** How far the whole-block mean lies above the mean of the other coefficients: the centre's
      excess over that mean, spread over all cells. */
  function Gap(b: Block): real
    requires IsMatrix(b, |b|, Width(b)) && b != [] && |b[0]| > 0 && Cells(b) > 1
  {
    (Centre(b) - PerimeterMean(b)) / (Cells(b) as real)
  }

  lemma MeanAbovePerimeter(b: Block)
    requires IsMatrix(b, |b|, Width(b)) && b != [] && |b[0]| > 0 && Cells(b) > 1
    ensures Mean(b) - PerimeterMean(b) == Gap(b)
  {
    assert (Cells(b) - 1) as real == Cells(b) as real - 1.0;
    MeanGap(Cells(b) as real, Sum(b), Centre(b));
  }

  /** The algebra behind it: with `p = (s - c) / (n - 1)`, `s / n - p == (c - p) / n`. */
  lemma MeanGap(n: real, s: real, c: real)
    requires n > 1.0
    ensures s / n - (s - c) / (n - 1.0) == (c - (s - c) / (n - 1.0)) / n
  {
    var p := (s - c) / (n - 1.0);
    assert (n - 1.0) * p == s - c;
    assert s == c + (n - 1.0) * p;
    assert s / n - p == (c + (n - 1.0) * p - n * p) / n;
  }

  /** After `modify_blocks`, `decode_blocks` reads a one exactly when the bit's shift
      `alpha * mv` outweighs the gap between the original centre and the other coefficients. */
  lemma {:induction false} DecodeModified(b: Block, bit: int, bitStep: nat, alpha: real)
    requires IsMatrix(b, |b|, Width(b)) && b != [] && |b[0]| > 0
    ensures Cells(b) <= 1 ==> DecodeBit(ModifyBlock(b, bit, bitStep, alpha)) == 0
    ensures Cells(b) > 1 ==>
      (DecodeBit(ModifyBlock(b, bit, bitStep, alpha)) == 1 <==> Gap(b) + alpha * Mv(bit, bitStep) > 0.0)
  {
    SetCentreKeepsPerimeter(b, Target(b, bit, bitStep, alpha));
    if Cells(b) > 1 {
      MeanAbovePerimeter(b);
    }
  }

  /** When a block gives its bit back after `modify_blocks`: a one needs the step to exceed the
      other coefficients' lead over the centre, a zero needs it to cover the centre's lead;
      a block of one cell only ever reads as zero. */
  ghost predicate Recovers(b: Block, bit: int, bitStep: nat, alpha: real) {
    IsMatrix(b, |b|, Width(b)) && b != [] && |b[0]| > 0 &&
    if bit == 1 then Cells(b) > 1 && alpha * (bitStep as real) > -Gap(b)
    else Cells(b) <= 1 || alpha * (bitStep as real) >= Gap(b)
  }

  /** A noiseless embed-then-decode gives a block's bit back exactly when `Recovers` holds. */
  lemma BitRecovered(b: Block, bit: int, bitStep: nat, alpha: real)
    requires IsMatrix(b, |b|, Width(b)) && b != [] && |b[0]| > 0 && (bit == 0 || bit == 1)
    ensures DecodeBit(ModifyBlock(b, bit, bitStep, alpha)) == bit <==> Recovers(b, bit, bitStep, alpha)
  {
    DecodeModified(b, bit, bitStep, alpha);
    assert Mv(bit, bitStep) == if bit == 1 then bitStep as real else -(bitStep as real);
  }

  /** Blocks whose first `8 * len(message)` bits read back as the message decode to bytes that
      begin with the message. */
  lemma DecodesMessage(blocks: seq<Block>, message: seq<Byte>)
    requires Uniform(blocks) && blocks != [] && 8 * |message| <= |blocks|
    requires forall k :: 0 <= k < 8 * |message| ==> DecodedBits(blocks)[k] == BytesToBinary(message)[k]
    ensures var d := DecodeBlocks(blocks).value; |message| <= |d| && d[..|message|] == message
  {
    var bits := DecodedBits(blocks);
    assert bits[..8 * |message|] == BytesToBinary(message);
    PackedPrefix(bits, message);
  }

  /** The noiseless round trip of the rule: when every carrying block recovers its bit, the
      decoded bytes begin with the message. */
  lemma EmbedDecode(message: seq<Byte>, blocks: seq<Block>, bitStep: nat, alpha: real)
    requires Uniform(blocks) && blocks != [] && 8 * |message| <= |blocks|
    requires forall k :: 0 <= k < 8 * |message| ==> Recovers(blocks[k], BytesToBinary(message)[k], bitStep, alpha)
    ensures var d := DecodeBlocks(ModifiedBlocks(message, blocks, bitStep, alpha).value);
      |message| <= |d.value| && d.value[..|message|] == message
  {
    var bin := BytesToBinary(message);
    var out := ModifiedBlocks(message, blocks, bitStep, alpha).value;
    forall k | 0 <= k < 8 * |message|
      ensures DecodedBits(out)[k] == bin[k]
    {
      assert IsMatrix(blocks[k], |blocks[0]|, |blocks[0][0]|);
      assert out[k] == ModifyBlock(blocks[k], bin[k], bitStep, alpha);
      BitRecovered(blocks[k], bin[k], bitStep, alpha);
    }
    DecodesMessage(out, message);
  }

  /** The mean reference includes the centre, so a centre far above its neighbours outweighs a
      zero's shift: a 3x3 block of zeros with centre 90, embedded with step 4 and alpha 1,
      reads back as a one. */
  lemma CentreOutweighsZero()
    ensures var b: Block := [[0.0, 0.0, 0.0], [0.0, 90.0, 0.0], [0.0, 0.0, 0.0]];
      DecodeBit(ModifyBlock(b, 0, 4, 1.0)) == 1
  {
    var b: Block := [[0.0, 0.0, 0.0], [0.0, 90.0, 0.0], [0.0, 0.0, 0.0]];
    assert RowSum(b[0]) == 0.0 && RowSum(b[1]) == 90.0 && RowSum(b[2]) == 0.0;
    assert |b[1..][1..][1..]| == 0;
    assert Sum(b) == 90.0;
    assert PerimeterMean(b) == 0.0;
    assert Gap(b) == 10.0;
    BitRecovered(b, 0, 4, 1.0);
  }

  /** The rule with the reference the decoder uses: the centre becomes the mean of the other
      coefficients plus `alpha * mv`. A one-cell block has no other coefficient and is left as
      it is. */
  function ModifyBlockAroundPerimeter(b: Block, bit: int, bitStep: nat, alpha: real): (r: Block)
    requires IsMatrix(b, |b|, Width(b)) && b != [] && |b[0]| > 0
    ensures IsMatrix(r, |b|, |b[0]|)
  {
    if Cells(b) <= 1 then b else SetCentre(b, PerimeterMean(b) + alpha * Mv(bit, bitStep))
  }

  /** With that reference every bit comes back whenever the shift is positive. */
  lemma AroundPerimeterRecovers(b: Block, bit: int, bitStep: nat, alpha: real)
    requires IsMatrix(b, |b|, Width(b)) && b != [] && |b[0]| > 0 && Cells(b) > 1
    requires bit == 0 || bit == 1
    requires alpha > 0.0 && bitStep > 0
    ensures DecodeBit(ModifyBlockAroundPerimeter(b, bit, bitStep, alpha)) == bit
  {
    SetCentreKeepsPerimeter(b, PerimeterMean(b) + alpha * Mv(bit, bitStep));
    assert alpha * (bitStep as real) > 0.0;
  }

  /** `modify_blocks` with the decoder's reference mean. */
  function ModifiedBlocksAroundPerimeter(message: seq<Byte>, blocks: seq<Block>, bitStep: nat, alpha: real): (r: Option<seq<Block>>)
    requires Uniform(blocks)
    ensures r.None? <==> blocks == [] || 8 * |message| > |blocks|
    ensures r.Some? ==> |r.value| == |blocks| && Shaped(r.value, |blocks[0]|, |blocks[0][0]|) && Uniform(r.value)
  {
    if blocks == [] || 8 * |message| > |blocks| then None
    else
      var bits := BytesToBinary(message);
      Some(seq(|blocks|, k requires 0 <= k < |blocks| =>
        if k < |bits| then ModifyBlockAroundPerimeter(blocks[k], bits[k], bitStep, alpha) else blocks[k]))
  }

  /** The corrected rule round-trips every message that fits, for blocks of more than one cell
      and any positive step. */
  lemma AroundPerimeterEmbedDecode(message: seq<Byte>, blocks: seq<Block>, bitStep: nat, alpha: real)
    requires Uniform(blocks) && blocks != [] && 8 * |message| <= |blocks|
    requires |blocks[0]| * |blocks[0][0]| > 1 && alpha > 0.0 && bitStep > 0
    ensures var d := DecodeBlocks(ModifiedBlocksAroundPerimeter(message, blocks, bitStep, alpha).value);
      |message| <= |d.value| && d.value[..|message|] == message
  {
    var bin := BytesToBinary(message);
    var out := ModifiedBlocksAroundPerimeter(message, blocks, bitStep, alpha).value;
    forall k | 0 <= k < 8 * |message|
      ensures DecodedBits(out)[k] == bin[k]
    {
      assert IsMatrix(blocks[k], |blocks[0]|, |blocks[0][0]|);
      assert out[k] == ModifyBlockAroundPerimeter(blocks[k], bin[k], bitStep, alpha);
      AroundPerimeterRecovers(blocks[k], bin[k], bitStep, alpha);
    }
    DecodesMessage(out, message);
  }
}
