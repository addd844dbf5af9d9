/** The mean-reference rule of `RobustStegoCoder` (stego/coder/image_coder.py): a 3 x 3
    block of real wavelet coefficients carries one bit in its centre, set above the mean of
    the eight perimeter coefficients for a 1 and below it for a 0; the distance is the
    band's `mv` times the coder's `alpha`. A band is cut into 3 x 3 blocks that take one
    message item each, in row-major order, until the message runs out. */
module RobustCoder {
  import opened Common
  import opened CropBlocking

  /** A block of wavelet coefficients. */
  type Block = seq<seq<real>>

  /** `perimeter_mask`: every cell of a 3 x 3 block except the centre. */
  const PerimeterMask: seq<seq<bool>> := [[true, true, true], [true, false, true], [true, true, true]]

  lemma PerimeterMaskExcludesCentre()
    ensures IsMatrix(PerimeterMask, 3, 3)
    ensures forall i, j :: 0 <= i < 3 && 0 <= j < 3 ==> (PerimeterMask[i][j] <==> !(i == 1 && j == 1))
  {
  }

  /** The sum of the entries of a row the mask selects. */
  function MaskedRowSum(row: seq<real>, m: seq<bool>): real
    requires |row| == |m|
  {
    if row == [] then 0.0 else (if m[0] then row[0] else 0.0) + MaskedRowSum(row[1..], m[1..])
  }

  /** How many entries of a row the mask selects. */
  function MaskedRowCount(m: seq<bool>): nat {
    if m == [] then 0 else (if m[0] then 1 else 0) + MaskedRowCount(m[1..])
  }

  /** `np.mean(block, where=perimeter_mask)`: the sum of the selected cells over their number. */
  function PerimeterMean(b: Block): real
    requires IsMatrix(b, 3, 3)
  {
    var sum := MaskedRowSum(b[0], PerimeterMask[0]) + MaskedRowSum(b[1], PerimeterMask[1]) + MaskedRowSum(b[2], PerimeterMask[2]);
    var count := MaskedRowCount(PerimeterMask[0]) + MaskedRowCount(PerimeterMask[1]) + MaskedRowCount(PerimeterMask[2]);
    sum / count as real
  }

  /** The masked sum of a row of three, written out. */
  lemma MaskedRowSumThree(row: seq<real>, m: seq<bool>)
    requires |row| == |m| == 3
    ensures MaskedRowSum(row, m) == (if m[0] then row[0] else 0.0) + (if m[1] then row[1] else 0.0) + (if m[2] then row[2] else 0.0)
    ensures MaskedRowCount(m) == (if m[0] then 1 else 0) + (if m[1] then 1 else 0) + (if m[2] then 1 else 0)
  {
    assert row[1..][0] == row[1] && row[1..][1..][0] == row[2] && row[1..][1..][1..] == [];
    assert m[1..][0] == m[1] && m[1..][1..][0] == m[2] && m[1..][1..][1..] == [];
    assert MaskedRowSum(row[1..][1..], m[1..][1..]) == if m[2] then row[2] else 0.0;
    assert MaskedRowCount(m[1..][1..]) == if m[2] then 1 else 0;
  }

  /** The masked mean is the plain mean of the eight cells around the centre. */
  lemma PerimeterMeanCells(b: Block)
    requires IsMatrix(b, 3, 3)
    ensures PerimeterMean(b) == (b[0][0] + b[0][1] + b[0][2] + b[1][0] + b[1][2] + b[2][0] + b[2][1] + b[2][2]) / 8.0
  {
    MaskedRowSumThree(b[0], PerimeterMask[0]);
    MaskedRowSumThree(b[1], PerimeterMask[1]);
    MaskedRowSumThree(b[2], PerimeterMask[2]);
    assert MaskedRowCount(PerimeterMask[0]) + MaskedRowCount(PerimeterMask[1]) + MaskedRowCount(PerimeterMask[2]) == 8;
  }

  /** The perimeter mean does not look at the centre. */
  lemma MeanIgnoresCentre(b: Block, v: real)
    requires IsMatrix(b, 3, 3)
    ensures IsMatrix(b[1 := b[1][1 := v]], 3, 3)
    ensures PerimeterMean(b[1 := b[1][1 := v]]) == PerimeterMean(b)
  {
    var c := b[1 := b[1][1 := v]];
    PerimeterMeanCells(b);
    PerimeterMeanCells(c);
  }

  /** The value `encode_block` gives the centre: the perimeter mean, less `mv * alpha` for a
      0 and plus it for a 1; any other item leaves it at the mean. */
  function CentreValue(b: Block, data: int, mv: real, alpha: real): real
    requires IsMatrix(b, 3, 3)
  {
    var mean := PerimeterMean(b);
    if data == 0 then mean - mv * alpha else if data == 1 then mean + mv * alpha else mean
  }

  /** `encode_block`, as a value. */
  function EncodedBlock(b: Block, data: int, mv: real, alpha: real): (r: Block)
    requires IsMatrix(b, 3, 3)
    ensures IsMatrix(r, 3, 3)
  {
    b[1 := b[1][1 := CentreValue(b, data, mv, alpha)]]
  }

  /** `encode_block` changes the centre only, and the perimeter mean the decoder compares it
      with is still the mean the encoder measured. */
  lemma EncodeBlockCells(b: Block, data: int, mv: real, alpha: real)
    requires IsMatrix(b, 3, 3)
    ensures var r := EncodedBlock(b, data, mv, alpha);
      (forall i, j :: 0 <= i < 3 && 0 <= j < 3 && !(i == 1 && j == 1) ==> r[i][j] == b[i][j]) &&
      PerimeterMean(r) == PerimeterMean(b) &&
      r[1][1] - PerimeterMean(r) == (if data == 0 then -(mv * alpha) else if data == 1 then mv * alpha else 0.0)
  {
    MeanIgnoresCentre(b, CentreValue(b, data, mv, alpha));
  }

  /** `encode_block` on a numpy block: the centre is assigned in place. */
  method EncodeBlock(block: array2<real>, data: int, mv: real, alpha: real)
    requires block.Length0 == 3 && block.Length1 == 3
    modifies block
    ensures Contents(block) == EncodedBlock(old(Contents(block)), data, mv, alpha)
  {
    ghost var b := Contents(block);
    var mean := PerimeterMean(Contents(block));
    var newValue := mean;
    if data == 0 {
      newValue := newValue - mv * alpha;
    } else if data == 1 {
      newValue := newValue + mv * alpha;
    }
    block[1, 1] := newValue;
    SameMatrix(Contents(block), EncodedBlock(b, data, mv, alpha), 3, 3);
  }

  /** `decode_block`: 1 when the centre lies above the perimeter mean, otherwise 0 (a tie
      decodes as 0). */
  function DecodeBlock(b: Block): (bit: int)
    requires IsMatrix(b, 3, 3)
    ensures bit == 0 || bit == 1
  {
    var value := b[1][1] - PerimeterMean(b);
    if value > 0.0 then 1 else if value < 0.0 then 0 else 0
  }

  /** What a decoded block says about the block: the bit is 1 exactly when the centre
      exceeds the perimeter mean. */
  lemma DecodeBlockMeaning(b: Block)
    requires IsMatrix(b, 3, 3)
    ensures DecodeBlock(b) == 1 <==> b[1][1] > PerimeterMean(b)
    ensures DecodeBlock(b) == 0 <==> b[1][1] <= PerimeterMean(b)
  {
  }

  /** Decoding an encoded block: a 1 comes back exactly when `mv * alpha > 0`, a 0 exactly
      when `mv * alpha >= 0`, and every other item reads as 0. */
  lemma DecodeEncodeBlock(b: Block, mv: real, alpha: real)
    requires IsMatrix(b, 3, 3)
    ensures DecodeBlock(EncodedBlock(b, 1, mv, alpha)) == 1 <==> mv * alpha > 0.0
    ensures DecodeBlock(EncodedBlock(b, 0, mv, alpha)) == 0 <==> mv * alpha >= 0.0
    ensures forall data :: data != 0 && data != 1 ==> DecodeBlock(EncodedBlock(b, data, mv, alpha)) == 0
  {
    EncodeBlockCells(b, 1, mv, alpha);
    EncodeBlockCells(b, 0, mv, alpha);
    forall data | data != 0 && data != 1
      ensures DecodeBlock(EncodedBlock(b, data, mv, alpha)) == 0
    {
      EncodeBlockCells(b, data, mv, alpha);
    }
  }

  /** So with a positive distance every bit survives the block round trip. */
  lemma BlockRoundTrip(b: Block, data: int, mv: real, alpha: real)
    requires IsMatrix(b, 3, 3) && (data == 0 || data == 1) && mv * alpha > 0.0
    ensures DecodeBlock(EncodedBlock(b, data, mv, alpha)) == data
  {
    DecodeEncodeBlock(b, mv, alpha);
  }

  /** The message items are bits. */
  ghost predicate Bits(bits: seq<int>) {
    forall k :: 0 <= k < |bits| ==> bits[k] == 0 || bits[k] == 1
  }

  /** A row of 3 x 3 blocks. */
  ghost predicate Blocks(row: seq<Block>) {
    forall k :: 0 <= k < |row| ==> IsMatrix(row[k], 3, 3)
  }

  /** Rows of 3 x 3 blocks. */
  ghost predicate BlockRows(g: seq<seq<Block>>) {
    forall y :: 0 <= y < |g| ==> Blocks(g[y])
  }

  /** A row of blocks after the inner loop: block `k` encodes item `k` while items last. */
  function EmbedRow(row: seq<Block>, items: seq<int>, mv: real, alpha: real): (r: seq<Block>)
    requires Blocks(row)
    ensures |r| == |row| && Blocks(r)
  {
    seq(|row|, k requires 0 <= k < |row| => if k < |items| then EncodedBlock(row[k], items[k], mv, alpha) else row[k])
  }

  /** The grid after the outer loop: each row encodes the items the rows above left over. */
  function EmbedGrid(g: seq<seq<Block>>, items: seq<int>, mv: real, alpha: real): (r: seq<seq<Block>>)
    requires BlockRows(g)
    ensures |r| == |g|
  {
    if g == [] then []
    else [EmbedRow(g[0], items, mv, alpha)] + EmbedGrid(g[1..], items[Taken(|g[0]|, items)..], mv, alpha)
  }

  /** Encoding keeps every row a row of 3 x 3 blocks of the same length. */
  lemma {:induction false} EmbedGridRows(g: seq<seq<Block>>, items: seq<int>, mv: real, alpha: real)
    requires BlockRows(g)
    ensures BlockRows(EmbedGrid(g, items, mv, alpha))
    ensures forall j :: 0 <= j < |g| ==> |EmbedGrid(g, items, mv, alpha)[j]| == |g[j]|
  {
    if g != [] {
      EmbedGridRows(g[1..], items[Taken(|g[0]|, items)..], mv, alpha);
    }
  }

  /** `encode_band`, as a value: `None` where `divide` fails (a band smaller than one block),
      otherwise the stacked grid pasted over the band. */
  function EncodedBand(band: seq<seq<real>>, items: seq<int>, mv: real, alpha: real): (r: Option<seq<seq<real>>>)
    requires IsRect(band)
    ensures r.Some? <==> |band| >= 3 && Width(band) >= 3
    ensures r.Some? ==> IsMatrix(r.value, |band|, Width(band))
  {
    if |band| < 3 || Width(band) < 3 then None
    else
      var g := EmbedGrid(BlockGrid(band, 3), items, mv, alpha);
      EmbedGridShape(BlockGrid(band, 3), items, mv, alpha, |band| / 3, Width(band) / 3);
      DivideStacked(band, 3, g);
      Some(Overlay(band, Stacked(g)))
  }

  /** Encoding keeps the shape of the grid. */
  lemma EmbedGridShape(g: seq<seq<Block>>, items: seq<int>, mv: real, alpha: real, nh: nat, nw: nat)
    requires GridShape(g, nh, nw, 3, 3)
    ensures BlockRows(g)
    ensures GridShape(EmbedGrid(g, items, mv, alpha), nh, nw, 3, 3)
  {
    var r := EmbedGrid(g, items, mv, alpha);
    forall j | 0 <= j < nh
      ensures Blocks(g[j])
    {
      assert forall k :: 0 <= k < nw ==> |g[j][k]| == 3 && forall i :: 0 <= i < 3 ==> |g[j][k][i]| == 3;
    }
    EmbedGridRows(g, items, mv, alpha);
    assert forall i, j :: 0 <= i < nh && 0 <= j < nw ==> |r[i][j]| == 3 && forall c :: 0 <= c < 3 ==> |r[i][j][c]| == 3;
  }

  /** With no items left nothing is encoded. */
  lemma {:induction false} EmbedGridNone(g: seq<seq<Block>>, mv: real, alpha: real)
    requires BlockRows(g)
    ensures EmbedGrid(g, [], mv, alpha) == g
  {
    if g != [] {
      EmbedGridNone(g[1..], mv, alpha);
      assert EmbedRow(g[0], [], mv, alpha) == g[0];
    }
  }

  /** The inner loop of `encode_band` over one row of blocks: each block takes the next item
      until `next` raises `StopIteration`, which ends the row early and with it the band
      (`stopped`). */
  method EncodeRow(row: seq<Block>, it: MessageIterator<int>, mv: real, alpha: real)
    returns (encoded: seq<Block>, stopped: bool)
    requires Blocks(row)
    modifies it
    ensures encoded == EmbedRow(row, old(it.rest), mv, alpha)
    ensures stopped <==> |old(it.rest)| < |row|
    ensures it.rest == old(it.rest)[Taken(|row|, old(it.rest))..]
  {
    ghost var start := it.rest;
    encoded := row;
    stopped := false;
    var k := 0;
    while k < |encoded|
      invariant 0 <= k <= |row| == |encoded| && k <= |start| && it.rest == start[k..]
      invariant Blocks(encoded)
      invariant forall c :: 0 <= c < |row| ==> encoded[c] == if c < k then EmbedRow(row, start, mv, alpha)[c] else row[c]
      invariant !stopped
    {
      var next := it.Next();
      if next.None? {
        stopped := true;
        break;
      }
      assert next.value == start[k];
      encoded := encoded[k := EncodedBlock(encoded[k], next.value, mv, alpha)];
      k := k + 1;
    }
    assert encoded == EmbedRow(row, start, mv, alpha);
    assert stopped ==> |start| == k < |row|;
  }

  /** The outer loop of `encode_band`: the rows of blocks in turn, until a row runs out of
      items (the `break` on `StopIteration`). */
  method EncodeGrid(grid: seq<seq<Block>>, it: MessageIterator<int>, mv: real, alpha: real)
    returns (blocks: seq<seq<Block>>)
    requires BlockRows(grid)
    modifies it
    ensures blocks == EmbedGrid(grid, old(it.rest), mv, alpha)
    ensures it.rest == LeftOver(grid, old(it.rest))
  {
    ghost var items := it.rest;
    blocks := grid;
    var j := 0;
    var stopped := false;
    while j < |blocks| && !stopped
      invariant 0 <= j <= |blocks| == |grid|
      invariant !stopped ==> blocks[j..] == grid[j..] && EmbedGrid(grid, items, mv, alpha) == blocks[..j] + EmbedGrid(grid[j..], it.rest, mv, alpha)
      invariant LeftOver(grid, items) == LeftOver(grid[j..], it.rest)
      invariant stopped ==> blocks == EmbedGrid(grid, items, mv, alpha) && it.rest == []
    {
      ghost var start := it.rest;
      ghost var before := blocks;
      assert blocks[j] == grid[j..][0];
      var row, stop := EncodeRow(blocks[j], it, mv, alpha);
      blocks := blocks[j := row];
      stopped := stop;
      EncodeGridPass(grid, items, mv, alpha, before, blocks, start, it.rest, j, stopped);
      j := j + 1;
    }
    if !stopped {
      assert grid[j..] == [] && blocks[..j] == blocks;
    } else {
      LeftOverNone(grid[j..], it.rest);
    }
  }

  /** `RobustStegoCoder.encode_band(band, iterator, mv)` with the coder's `alpha`: the band
      is cut into 3 x 3 blocks, each block in row-major order is replaced by
      `encode_block(block, next(iterator), mv, alpha)`, the loops stop at the first
      `StopIteration`, and the blocks are stacked back over the band. The items not drawn
      stay in the iterator for the next band. */
  method EncodeBand(band: seq<seq<real>>, it: MessageIterator<int>, mv: real, alpha: real)
    returns (encoded: Option<seq<seq<real>>>)
    requires IsRect(band)
    modifies it
    ensures encoded == EncodedBand(band, old(it.rest), mv, alpha)
    ensures it.rest == if encoded.Some? then LeftOver(BlockGrid(band, 3), old(it.rest)) else old(it.rest)
  {
    var blocker := new CropBlocker(band);
    var divided := blocker.Divide(3);
    if divided.None? {
      return None;
    }
    ghost var items := it.rest;
    EmbedGridShape(divided.value, items, mv, alpha, |band| / 3, Width(band) / 3);
    var blocks := EncodeGrid(divided.value, it, mv, alpha);
    EncodeBandFits(band, divided.value, items, mv, alpha, blocks);
    encoded := blocker.Stack(blocks);
  }

  /** One pass of the outer loop of `encode_band` keeps its invariant. */
  lemma EncodeGridPass(grid: seq<seq<Block>>, items: seq<int>, mv: real, alpha: real, before: seq<seq<Block>>,
                       after: seq<seq<Block>>, start: seq<int>, rest: seq<int>, j: nat, stop: bool)
    requires BlockRows(grid) && j < |grid| == |before|
    requires before[j..] == grid[j..] && EmbedGrid(grid, items, mv, alpha) == before[..j] + EmbedGrid(grid[j..], start, mv, alpha)
    requires LeftOver(grid, items) == LeftOver(grid[j..], start)
    requires after == before[j := EmbedRow(grid[j], start, mv, alpha)]
    requires rest == start[Taken(|grid[j]|, start)..] && (stop <==> |start| < |grid[j]|)
    ensures !stop ==> after[j + 1..] == grid[j + 1..] && EmbedGrid(grid, items, mv, alpha) == after[..j + 1] + EmbedGrid(grid[j + 1..], rest, mv, alpha)
    ensures LeftOver(grid, items) == LeftOver(grid[j + 1..], rest)
    ensures stop ==> after == EmbedGrid(grid, items, mv, alpha) && rest == []
  {
    EncodeBandStep(grid, items, mv, alpha, before, after, start, j);
    if stop {
      EncodeBandStop(grid, items, mv, alpha, after, j);
    }
  }

  /** One pass of the outer loop of `encode_band` keeps its invariant: a row that drew all
      its items leaves the rows below to the items left over ... */
  lemma EncodeBandStep(grid: seq<seq<Block>>, items: seq<int>, mv: real, alpha: real, before: seq<seq<Block>>,
                       after: seq<seq<Block>>, start: seq<int>, j: nat)
    requires BlockRows(grid) && j < |grid| == |before|
    requires before[j..] == grid[j..] && EmbedGrid(grid, items, mv, alpha) == before[..j] + EmbedGrid(grid[j..], start, mv, alpha)
    requires after == before[j := EmbedRow(grid[j], start, mv, alpha)]
    ensures after[j + 1..] == grid[j + 1..]
    ensures EmbedGrid(grid, items, mv, alpha) == after[..j + 1] + EmbedGrid(grid[j + 1..], start[Taken(|grid[j]|, start)..], mv, alpha)
    ensures LeftOver(grid[j..], start) == LeftOver(grid[j + 1..], start[Taken(|grid[j]|, start)..])
  {
    var row := EmbedRow(grid[j], start, mv, alpha);
    var rest := EmbedGrid(grid[j + 1..], start[Taken(|grid[j]|, start)..], mv, alpha);
    EmbedGridUnfold(grid, j, start, mv, alpha);
    UpdateAt(before, j, row);
    DropOne(before, j);
    DropOne(grid, j);
    Regroup(before[..j], [row], rest);
  }

  /** ... and a row that ran out of items leaves all the rows below as they were. */
  lemma EncodeBandStop(grid: seq<seq<Block>>, items: seq<int>, mv: real, alpha: real, after: seq<seq<Block>>, j: nat)
    requires BlockRows(grid) && j < |grid| == |after|
    requires after[j + 1..] == grid[j + 1..]
    requires EmbedGrid(grid, items, mv, alpha) == after[..j + 1] + EmbedGrid(grid[j + 1..], [], mv, alpha)
    ensures after == EmbedGrid(grid, items, mv, alpha)
  {
    EmbedGridNone(grid[j + 1..], mv, alpha);
    SplitJoin(after, j + 1);
  }

  /** The rows from `k` on: row `k` first, then the rest with the items it left. */
  lemma EmbedGridUnfold(g: seq<seq<Block>>, k: nat, items: seq<int>, mv: real, alpha: real)
    requires BlockRows(g) && k < |g|
    ensures EmbedGrid(g[k..], items, mv, alpha) ==
      [EmbedRow(g[k], items, mv, alpha)] + EmbedGrid(g[k + 1..], items[Taken(|g[k]|, items)..], mv, alpha)
    ensures LeftOver(g[k..], items) == LeftOver(g[k + 1..], items[Taken(|g[k]|, items)..])
  {
    assert g[k..][0] == g[k] && g[k..][1..] == g[k + 1..];
  }

  lemma EncodeBandFits(band: seq<seq<real>>, grid: seq<seq<Block>>, items: seq<int>, mv: real, alpha: real,
                       blocks: seq<seq<Block>>)
    requires IsRect(band) && |band| >= 3 && Width(band) >= 3
    requires grid == BlockGrid(band, 3) && BlockRows(grid) && blocks == EmbedGrid(grid, items, mv, alpha)
    ensures IsGrid(blocks)
    ensures var s := Stacked(blocks); |s| <= |band| && Width(s) <= Width(band)
    ensures EncodedBand(band, items, mv, alpha) == Some(Overlay(band, Stacked(blocks)))
  {
    EmbedGridShape(grid, items, mv, alpha, |band| / 3, Width(band) / 3);
    DivideStacked(band, 3, blocks);
  }

  /** The bits of a row of blocks, block after block. */
  function DecodeRow(row: seq<Block>): (bits: seq<int>)
    requires Blocks(row)
    ensures |bits| == |row|
  {
    if row == [] then [] else [DecodeBlock(row[0])] + DecodeRow(row[1..])
  }

  /** The bits of a grid, row after row. */
  function DecodeGrid(g: seq<seq<Block>>): seq<int>
    requires BlockRows(g)
  {
    if g == [] then [] else DecodeRow(g[0]) + DecodeGrid(g[1..])
  }

  /** `decode_band`, as a value; `None` where `divide` fails. */
  function DecodedBand(band: seq<seq<real>>): (r: Option<seq<int>>)
    requires IsRect(band)
    ensures r.Some? <==> |band| >= 3 && Width(band) >= 3
  {
    if |band| < 3 || Width(band) < 3 then None
    else
      GridBlockRows(BlockGrid(band, 3), |band| / 3, Width(band) / 3);
      Some(DecodeGrid(BlockGrid(band, 3)))
  }

  /** The inner loop of `decode_band`: the bits of a row, block by block. */
  method DecodeRowLoop(row: seq<Block>) returns (bits: seq<int>)
    requires Blocks(row)
    ensures bits == DecodeRow(row)
  {
    bits := [];
    for k := 0 to |row|
      invariant bits + DecodeRow(row[k..]) == DecodeRow(row)
    {
      assert row[k..][0] == row[k] && row[k..][1..] == row[k + 1..];
      bits := bits + [DecodeBlock(row[k])];
    }
    assert row[|row|..] == [];
  }

  /** `RobustStegoCoder.decode_band`: one bit per block, appended in row-major order. */
  method DecodeBand(band: seq<seq<real>>) returns (data: Option<seq<int>>)
    requires IsRect(band)
    ensures data == DecodedBand(band)
  {
    var blocker := new CropBlocker(band);
    var divided := blocker.Divide(3);
    if divided.None? {
      return None;
    }
    var blocks := divided.value;
    GridBlockRows(blocks, |band| / 3, Width(band) / 3);
    var encoded: seq<int> := [];
    for j := 0 to |blocks|
      invariant BlockRows(blocks[j..])
      invariant encoded + DecodeGrid(blocks[j..]) == DecodeGrid(blocks)
    {
      DecodeGridStep(blocks, j);
      var bits := DecodeRowLoop(blocks[j]);
      Regroup(encoded, bits, DecodeGrid(blocks[j + 1..]));
      encoded := encoded + bits;
    }
    assert blocks[|blocks|..] == [] && DecodeGrid(blocks[|blocks|..]) == [];
    assert encoded == DecodeGrid(blocks);
    assert blocks == BlockGrid(band, 3);
    return Some(encoded);
  }

  /** The bits of the rows from `j` on are those of row `j`, then those of the rest. */
  lemma DecodeGridStep(g: seq<seq<Block>>, j: nat)
    requires BlockRows(g) && j < |g|
    ensures BlockRows(g[j..]) && BlockRows(g[j + 1..])
    ensures DecodeGrid(g[j..]) == DecodeRow(g[j]) + DecodeGrid(g[j + 1..])
  {
    assert g[j..][0] == g[j] && g[j..][1..] == g[j + 1..];
  }

  /** `decode_band` returns one bit for every block of the cropped band. */
  lemma {:induction false} DecodeGridLength(g: seq<seq<Block>>, nh: nat, nw: nat)
    requires GridShape(g, nh, nw, 3, 3)
    ensures BlockRows(g)
    ensures |DecodeGrid(g)| == nh * nw
  {
    GridBlockRows(g, nh, nw);
    if nh > 0 {
      GridTail(g, nh, nw, 3, 3);
      DecodeGridLength(g[1..], nh - 1, nw);
      assert nh * nw == nw + (nh - 1) * nw;
    }
  }

  /** A grid of 3 x 3 blocks is made of rows of 3 x 3 blocks. */
  lemma GridBlockRows(g: seq<seq<Block>>, nh: nat, nw: nat)
    requires GridShape(g, nh, nw, 3, 3)
    ensures BlockRows(g)
  {
    forall y | 0 <= y < |g|
      ensures Blocks(g[y])
    {
      forall k | 0 <= k < |g[y]|
        ensures IsMatrix(g[y][k], 3, 3)
      {
      }
    }
  }

  lemma DecodedBandLength(band: seq<seq<real>>)
    requires IsRect(band) && |band| >= 3 && Width(band) >= 3
    ensures |DecodedBand(band).value| == (|band| / 3) * (Width(band) / 3)
  {
    DecodeGridLength(BlockGrid(band, 3), |band| / 3, Width(band) / 3);
  }

  /** Decoding a flattened grid is decoding it row by row. */
  lemma {:induction false} DecodeRowAppend(a: seq<Block>, b: seq<Block>)
    requires Blocks(a) && Blocks(b)
    ensures Blocks(a + b) && DecodeRow(a + b) == DecodeRow(a) + DecodeRow(b)
  {
    assert forall k :: 0 <= k < |a| + |b| ==> (a + b)[k] == if k < |a| then a[k] else b[k - |a|];
    if a != [] {
      assert (a + b)[0] == a[0] && (a + b)[1..] == a[1..] + b;
      DecodeRowAppend(a[1..], b);
      assert DecodeRow(a + b) == [DecodeBlock(a[0])] + DecodeRow(a[1..] + b);
    } else {
      assert a + b == b;
    }
  }

  lemma {:induction false} DecodeFlat(g: seq<seq<Block>>)
    requires BlockRows(g)
    ensures Blocks(Concat(g)) && DecodeGrid(g) == DecodeRow(Concat(g))
  {
    if g != [] {
      DecodeFlat(g[1..]);
      DecodeRowAppend(g[0], Concat(g[1..]));
    }
  }

  /** Encoding row after row is encoding the flattened grid: the items go to the blocks in
      row-major order. */
  lemma EmbedRowAppend(a: seq<Block>, b: seq<Block>, items: seq<int>, mv: real, alpha: real)
    requires Blocks(a) && Blocks(b)
    ensures Blocks(a + b)
    ensures EmbedRow(a + b, items, mv, alpha) == EmbedRow(a, items, mv, alpha) + EmbedRow(b, items[Taken(|a|, items)..], mv, alpha)
  {
    var n := Taken(|a|, items);
    var l, r := EmbedRow(a + b, items, mv, alpha), EmbedRow(a, items, mv, alpha) + EmbedRow(b, items[n..], mv, alpha);
    forall k | 0 <= k < |a| + |b|
      ensures l[k] == r[k]
    {
      if k >= |a| {
        assert (a + b)[k] == b[k - |a|];
        if k < |items| {
          assert n == |a| && items[n..][k - |a|] == items[k];
        }
      }
    }
  }

  lemma {:induction false} EmbedFlat(g: seq<seq<Block>>, items: seq<int>, mv: real, alpha: real)
    requires BlockRows(g)
    ensures Blocks(Concat(g))
    ensures Concat(EmbedGrid(g, items, mv, alpha)) == EmbedRow(Concat(g), items, mv, alpha)
    ensures LeftOver(g, items) == items[Taken(|Concat(g)|, items)..]
  {
    DecodeFlat(g);
    if g != [] {
      var n := Taken(|g[0]|, items);
      EmbedFlat(g[1..], items[n..], mv, alpha);
      DecodeFlat(g[1..]);
      EmbedRowAppend(g[0], Concat(g[1..]), items, mv, alpha);
      assert |Concat(g)| == |g[0]| + |Concat(g[1..])|;
      TakenSuffix(|g[0]|, |Concat(g[1..])|, items);
    }
  }

  /** The blocks of the flattened grid after `encode_band`'s loops: block `k` in row-major
      order encodes item `k` while items last, every later block keeps its values, and the
      iterator keeps exactly the items not drawn. */
  lemma EmbedGridRowMajor(g: seq<seq<Block>>, items: seq<int>, mv: real, alpha: real, k: nat)
    requires BlockRows(g) && k < |Concat(g)|
    ensures Blocks(Concat(g)) && |Concat(EmbedGrid(g, items, mv, alpha))| == |Concat(g)|
    ensures Concat(EmbedGrid(g, items, mv, alpha))[k] ==
      if k < |items| then EncodedBlock(Concat(g)[k], items[k], mv, alpha) else Concat(g)[k]
    ensures LeftOver(g, items) == items[Taken(|Concat(g)|, items)..]
  {
    EmbedFlat(g, items, mv, alpha);
  }

  /** Decoding the encoded blocks gives the drawn bits, then the bits the later blocks
      carried before. */
  lemma {:induction false} DecodeEmbedRow(row: seq<Block>, bits: seq<int>, mv: real, alpha: real)
    requires Blocks(row) && Bits(bits) && mv * alpha > 0.0
    ensures DecodeRow(EmbedRow(row, bits, mv, alpha)) == bits[..Taken(|row|, bits)] + DecodeRow(row[Taken(|row|, bits)..])
  {
    var n := Taken(|row|, bits);
    if n == 0 {
      assert EmbedRow(row, bits, mv, alpha) == row;
      assert bits[..0] == [] && row[0..] == row;
    } else {
      DecodeEmbedRow(row[1..], bits[1..], mv, alpha);
      DecodeEmbedRowStep(row, bits, mv, alpha);
    }
  }

  /** The first block of a row takes the first item; the rest take the rest. */
  lemma EmbedRowTail(row: seq<Block>, items: seq<int>, mv: real, alpha: real)
    requires Blocks(row) && row != [] && items != []
    ensures EmbedRow(row, items, mv, alpha)[0] == EncodedBlock(row[0], items[0], mv, alpha)
    ensures EmbedRow(row, items, mv, alpha)[1..] == EmbedRow(row[1..], items[1..], mv, alpha)
  {
    var e, t := EmbedRow(row, items, mv, alpha), EmbedRow(row[1..], items[1..], mv, alpha);
    forall k | 0 <= k < |t|
      ensures e[1..][k] == t[k]
    {
    }
  }

  /** A row's bits are its first block's bit, then the rest's. */
  lemma DecodeRowFirst(row: seq<Block>, bit: int)
    requires Blocks(row) && row != [] && DecodeBlock(row[0]) == bit
    ensures DecodeRow(row) == [bit] + DecodeRow(row[1..])
  {
  }

  /** The step of the induction: the first block gives back its bit. */
  lemma DecodeEmbedRowStep(row: seq<Block>, bits: seq<int>, mv: real, alpha: real)
    requires Blocks(row) && Bits(bits) && mv * alpha > 0.0 && row != [] && bits != []
    requires DecodeRow(EmbedRow(row[1..], bits[1..], mv, alpha))
      == bits[1..][..Taken(|row| - 1, bits[1..])] + DecodeRow(row[1..][Taken(|row| - 1, bits[1..])..])
    ensures DecodeRow(EmbedRow(row, bits, mv, alpha)) == bits[..Taken(|row|, bits)] + DecodeRow(row[Taken(|row|, bits)..])
  {
    var n := Taken(|row|, bits);
    TakenStep(|row|, bits);
    var e := EmbedRow(row, bits, mv, alpha);
    EmbedRowTail(row, bits, mv, alpha);
    BlockRoundTrip(row[0], bits[0], mv, alpha);
    DecodeRowFirst(e, bits[0]);
    FirstSplit(bits, n);
    FirstSplit(row, n);
    Regroup([bits[0]], bits[1..][..n - 1], DecodeRow(row[n..]));
  }

  /** `decode_band(encode_band(band, iterator, mv))` with `mv * alpha > 0` starts with the
      bits drawn from the iterator, in order (one per block, as many blocks as there were
      bits), and continues with the bits the untouched blocks carried before. */
  lemma DecodeEncodeBand(band: seq<seq<real>>, bits: seq<int>, mv: real, alpha: real)
    requires IsRect(band) && |band| >= 3 && Width(band) >= 3 && Bits(bits) && mv * alpha > 0.0
    ensures EncodedBand(band, bits, mv, alpha).Some? && IsRect(EncodedBand(band, bits, mv, alpha).value)
    ensures var n := Taken((|band| / 3) * (Width(band) / 3), bits);
      n <= |DecodedBand(band).value| &&
      DecodedBand(EncodedBand(band, bits, mv, alpha).value) == Some(bits[..n] + DecodedBand(band).value[n..])
  {
    var g := BlockGrid(band, 3);
    var nh, nw := |band| / 3, Width(band) / 3;
    var e := EmbedGrid(g, bits, mv, alpha);
    EmbedGridShape(g, bits, mv, alpha, nh, nw);
    DivideStacked(band, 3, e);
    assert BlockGrid(Overlay(band, Stacked(e)), 3) == e;
    EmbedGridShape(e, [], 0.0, 0.0, nh, nw);
    RowMajor(g, nh, nw);
    DecodeEmbedGrid(g, bits, mv, alpha);
  }

  /** The same on the grid: the drawn bits, then what the untouched blocks carried. */
  lemma DecodeEmbedGrid(g: seq<seq<Block>>, bits: seq<int>, mv: real, alpha: real)
    requires BlockRows(g) && Bits(bits) && mv * alpha > 0.0
    ensures BlockRows(EmbedGrid(g, bits, mv, alpha))
    ensures var n := Taken(|Concat(g)|, bits);
      n <= |DecodeGrid(g)| &&
      DecodeGrid(EmbedGrid(g, bits, mv, alpha)) == bits[..n] + DecodeGrid(g)[n..]
  {
    var flat := Concat(g);
    var n := Taken(|flat|, bits);
    EmbedGridRows(g, bits, mv, alpha);
    DecodeFlat(EmbedGrid(g, bits, mv, alpha));
    EmbedFlat(g, bits, mv, alpha);
    DecodeEmbedRow(flat, bits, mv, alpha);
    DecodeFlat(g);
    SplitJoin(flat, n);
    DecodeRowAppend(flat[..n], flat[n..]);
  }

  /** When the iterator is empty, `encode_band` gives the band back unchanged. */
  lemma EncodeBandNothingLeft(band: seq<seq<real>>, mv: real, alpha: real)
    requires IsRect(band) && |band| >= 3 && Width(band) >= 3
    ensures EncodedBand(band, [], mv, alpha) == Some(band)
  {
    var g := BlockGrid(band, 3);
    EmbedGridShape(g, [], mv, alpha, |band| / 3, Width(band) / 3);
    EmbedGridNone(g, mv, alpha);
    StackDivide(band, 3);
    CropDivideIsBlockGrid(band, 3);
  }
}
