/** Block partitioning of one coefficient plane (stego/core/blocking.py): cropping to a
    multiple of the block size, cutting into row-major square blocks, and putting blocks back
    into a zero plane of a given shape. A plane is a rectangular `seq<seq<T>>`; `T` is the
    sample type (real coefficients, or whole pixels when an image is cropped). */
module CoreBlocking {
  import opened Common

  /** `get_new_shape`: each dimension rounded down to a multiple of `blockSize`. */
  function GetNewShape<T>(img: seq<seq<T>>, blockSize: nat): (shape: (nat, nat))
    requires blockSize > 0
    ensures shape.0 % blockSize == 0 && shape.0 <= |img| && |img| - shape.0 < blockSize
    ensures shape.1 % blockSize == 0 && shape.1 <= Width(img) && Width(img) - shape.1 < blockSize
  {
    var height, width := |img|, Width(img);
    MulDivExact(height / blockSize, blockSize);
    MulDivExact(width / blockSize, blockSize);
    FloorMultiple(height, blockSize);
    FloorMultiple(width, blockSize);
    ((height / blockSize) * blockSize, (width / blockSize) * blockSize)
  }

  /** `crop_image_to_divisible`: the top-left `new_height x new_width` part and that shape. */
  function CropImageToDivisible<T>(img: seq<seq<T>>, blockSize: nat): (r: (seq<seq<T>>, (nat, nat)))
    requires IsRect(img) && blockSize > 0
    ensures r.1 == GetNewShape(img, blockSize)
    ensures IsMatrix(r.0, r.1.0, r.1.1)
    ensures forall i, j :: 0 <= i < r.1.0 && 0 <= j < r.1.1 ==> r.0[i][j] == img[i][j]
  {
    var shape := GetNewShape(img, blockSize);
    (SubMatrix(img, 0, 0, shape.0, shape.1), shape)
  }

  /** What `divide_image` returns: the `(h // bs) * (w // bs)` full blocks, `bs x bs` each,
      row after row, so that block `k` is the one in block-row `k // blocks_wide` and
      block-column `k % blocks_wide`. */
  function Divide<T>(img: seq<seq<T>>, bs: nat): (blocks: seq<seq<seq<T>>>)
    requires IsRect(img) && bs > 0
    ensures |blocks| == (|img| / bs) * (Width(img) / bs)
    ensures forall k :: 0 <= k < |blocks| ==> IsMatrix(blocks[k], bs, bs)
  {
    var g := BlockGrid(img, bs);
    RowMajor(g, |img| / bs, Width(img) / bs);
    ConcatSquare(g, bs);
    Concat(g)
  }

  /** The block of block-row `i` and block-column `j` is number `i * blocks_wide + j`. */
  lemma DivideAt<T>(img: seq<seq<T>>, bs: nat, i: nat, j: nat)
    requires IsRect(img) && bs > 0 && i < |img| / bs && j < Width(img) / bs
    ensures 0 <= i * (Width(img) / bs) + j < |Divide(img, bs)|
    ensures Divide(img, bs)[i * (Width(img) / bs) + j] == BlockAt(img, bs, i, j)
  {
    RowMajorAt(BlockGrid(img, bs), |img| / bs, Width(img) / bs, i, j);
  }

  /** `divide_image`: nested loops appending one block per step. */
  method DivideImage<T>(img: seq<seq<T>>, blockSize: nat) returns (blocks: seq<seq<seq<T>>>)
    requires IsRect(img) && blockSize > 0
    ensures blocks == Divide(img, blockSize)
  {
    var height, width := |img|, Width(img);
    var blocksWide := width / blockSize;
    var blocksHigh := height / blockSize;
    ghost var grid := BlockGrid(img, blockSize);
    blocks := [];
    for i := 0 to blocksHigh
      invariant blocks == Concat(grid[..i])
    {
      for j := 0 to blocksWide
        invariant blocks == Concat(grid[..i]) + grid[i][..j]
      {
        var startY, startX := i * blockSize, j * blockSize;
        BlockInside(i, blocksHigh, blockSize);
        BlockInside(j, blocksWide, blockSize);
        FloorMultiple(height, blockSize);
        FloorMultiple(width, blockSize);
        var block := SubMatrix(img, startY, startX, blockSize, blockSize);
        assert block == BlockAt(img, blockSize, i, j);
        blocks := blocks + [block];
        assert grid[i][..j] + [block] == grid[i][..j + 1];
      }
      assert grid[..i + 1] == grid[..i] + [grid[i]];
      ConcatAppend(grid[..i], [grid[i]]);
      assert grid[i][..blocksWide] == grid[i];
    }
    assert grid[..blocksHigh] == grid;
  }

  /** Every block is square with the side of the first one. */
  ghost predicate SquareBlocks<T>(blocks: seq<seq<seq<T>>>) {
    forall k :: 0 <= k < |blocks| ==> IsMatrix(blocks[k], |blocks[0]|, |blocks[0]|)
  }

  /** Cell `(r, c)` of block number `(r / bs) * bw + c / bs` (zero if there is no such block). */
  function MergeCellOf<T>(blocks: seq<seq<seq<T>>>, bw: nat, zero: T, r: nat, c: nat): T
    requires blocks != [] && |blocks[0]| > 0 && SquareBlocks(blocks)
  {
    var bs := |blocks[0]|;
    var k := (r / bs) * bw + c / bs;
    if k < |blocks| then blocks[k][r % bs][c % bs] else zero
  }

  /** The plane `merge_blocks` builds: inside the covered region (`blocks_high * bs` rows,
      `blocks_wide * bs` columns) each cell comes from its block, outside it stays zero. */
  function MergedPlane<T>(blocks: seq<seq<seq<T>>>, h: nat, w: nat, zero: T): (m: seq<seq<T>>)
    requires blocks != [] && |blocks[0]| > 0 && SquareBlocks(blocks)
    ensures IsMatrix(m, h, w)
  {
    var bs := |blocks[0]|;
    var bh, bw := h / bs, w / bs;
    seq(h, r requires 0 <= r < h => seq(w, c requires 0 <= c < w =>
      if r < bh * bs && c < bw * bs then MergeCellOf(blocks, bw, zero, r, c) else zero))
  }

  /** What `merge_blocks` returns. It fails (`None`) with an `IndexError` for an empty list,
      a `ZeroDivisionError` for blocks without rows, and an `IndexError` when fewer than
      `blocks_high * blocks_wide` blocks are given. */
  function Merge<T>(blocks: seq<seq<seq<T>>>, h: nat, w: nat, zero: T): (m: Option<seq<seq<T>>>)
    requires SquareBlocks(blocks)
    ensures m.None? <==> (blocks == [] || |blocks[0]| == 0 ||
                          |blocks| < (h / |blocks[0]|) * (w / |blocks[0]|))
    ensures m.Some? ==> IsMatrix(m.value, h, w)
  {
    if blocks == [] || |blocks[0]| == 0 || |blocks| < (h / |blocks[0]|) * (w / |blocks[0]|) then None
    else Some(MergedPlane(blocks, h, w, zero))
  }

  /** Block `(a, b)` comes before block `(i, j)` in row-major order. */
  predicate Before(a: nat, b: nat, i: nat, j: nat) {
    a < i || (a == i && b < j)
  }

  /** Cell `(r, c)` of the `merge_blocks` plane once every block before block `(i, j)` has
      been written. */
  ghost function Partial<T>(blocks: seq<seq<seq<T>>>, bh: nat, bw: nat, zero: T, i: nat, j: nat, r: nat, c: nat): T
    requires blocks != [] && |blocks[0]| > 0 && SquareBlocks(blocks)
  {
    var bs := |blocks[0]|;
    if r < bh * bs && c < bw * bs && Before(r / bs, c / bs, i, j) then MergeCellOf(blocks, bw, zero, r, c) else zero
  }

  /** The cells of block `(i, j)` are exactly those with quotients `i` and `j`. */
  lemma InBlock(r: nat, c: nat, bs: nat, i: nat, j: nat)
    requires bs > 0
    ensures (i * bs <= r < i * bs + bs && j * bs <= c < j * bs + bs) <==> (r / bs == i && c / bs == j)
    ensures r / bs == i ==> r % bs == r - i * bs
    ensures c / bs == j ==> c % bs == c - j * bs
  {
    FloorMultiple(r, bs);
    FloorMultiple(c, bs);
    if i * bs <= r < i * bs + bs {
      DivModUnique(r, bs, i, r - i * bs);
    }
    if j * bs <= c < j * bs + bs {
      DivModUnique(c, bs, j, c - j * bs);
    }
  }

  /** Writing block `(i, j)` turns the plane "before `(i, j)`" into "before `(i, j + 1)`". */
  lemma PartialStep<T>(blocks: seq<seq<seq<T>>>, bh: nat, bw: nat, zero: T, i: nat, j: nat, r: nat, c: nat)
    requires blocks != [] && |blocks[0]| > 0 && SquareBlocks(blocks)
    requires i < bh && j < bw && i * bw + j < |blocks|
    ensures var bs := |blocks[0]|;
      Partial(blocks, bh, bw, zero, i, j + 1, r, c) ==
        if i * bs <= r < i * bs + bs && j * bs <= c < j * bs + bs
        then blocks[i * bw + j][r - i * bs][c - j * bs]
        else Partial(blocks, bh, bw, zero, i, j, r, c)
  {
    var bs := |blocks[0]|;
    InBlock(r, c, bs, i, j);
    BlockInside(i, bh, bs);
    BlockInside(j, bw, bs);
  }

  /** Before the first block nothing has been written. */
  lemma PartialStart<T>(blocks: seq<seq<seq<T>>>, bh: nat, bw: nat, zero: T)
    requires blocks != [] && |blocks[0]| > 0 && SquareBlocks(blocks)
    ensures forall r: nat, c: nat :: Partial(blocks, bh, bw, zero, 0, 0, r, c) == zero
  {
  }

  /** Writing the last block of block-row `i` reaches the start of block-row `i + 1`. */
  lemma PartialNextRow<T>(blocks: seq<seq<seq<T>>>, bh: nat, bw: nat, zero: T, i: nat, r: nat, c: nat)
    requires blocks != [] && |blocks[0]| > 0 && SquareBlocks(blocks)
    ensures Partial(blocks, bh, bw, zero, i, bw, r, c) == Partial(blocks, bh, bw, zero, i + 1, 0, r, c)
  {
    var bs := |blocks[0]|;
    if c < bw * bs {
      DivModBounds(c, bs, bw);
      assert Before(r / bs, c / bs, i, bw) == Before(r / bs, c / bs, i + 1, 0);
    }
  }

  /** After the last block-row every covered cell has been written. */
  lemma PartialDone<T>(blocks: seq<seq<seq<T>>>, h: nat, w: nat, zero: T, r: nat, c: nat)
    requires blocks != [] && |blocks[0]| > 0 && SquareBlocks(blocks) && r < h && c < w
    ensures Partial(blocks, h / |blocks[0]|, w / |blocks[0]|, zero, h / |blocks[0]|, 0, r, c)
         == MergedPlane(blocks, h, w, zero)[r][c]
  {
    var bs := |blocks[0]|;
    if r < (h / bs) * bs {
      DivModBounds(r, bs, h / bs);
    }
  }

  /** A plane whose every cell is "before the end" is the merged plane. */
  lemma PartialComplete<T>(m: seq<seq<T>>, blocks: seq<seq<seq<T>>>, h: nat, w: nat, zero: T)
    requires blocks != [] && |blocks[0]| > 0 && SquareBlocks(blocks) && IsMatrix(m, h, w)
    requires forall r, c :: 0 <= r < h && 0 <= c < w ==>
               m[r][c] == Partial(blocks, h / |blocks[0]|, w / |blocks[0]|, zero, h / |blocks[0]|, 0, r, c)
    ensures m == MergedPlane(blocks, h, w, zero)
  {
    var mp := MergedPlane(blocks, h, w, zero);
    forall r | 0 <= r < h
      ensures m[r] == mp[r]
    {
      forall c | 0 <= c < w
        ensures m[r][c] == mp[r][c]
      {
        PartialDone(blocks, h, w, zero, r, c);
      }
    }
  }

  /** The rows of a 2-D array as a plane. */
  method Rows<T>(img: array2<T>) returns (rows: seq<seq<T>>)
    ensures IsMatrix(rows, img.Length0, img.Length1)
    ensures forall r, c :: 0 <= r < img.Length0 && 0 <= c < img.Length1 ==> rows[r][c] == img[r, c]
  {
    rows := seq(img.Length0, r requires 0 <= r < img.Length0 reads img =>
              seq(img.Length1, c requires 0 <= c < img.Length1 reads img => img[r, c]));
  }

  /** `img[y:y + s, x:x + s] = block`: the square at `(y, x)` takes the block's cells, every
      other cell keeps its value. */
  method PasteBlock<T>(img: array2<T>, block: seq<seq<T>>, y: nat, x: nat, s: nat)
    requires y + s <= img.Length0 && x + s <= img.Length1 && IsMatrix(block, s, s)
    modifies img
    ensures forall r, c :: 0 <= r < img.Length0 && 0 <= c < img.Length1 ==>
              img[r, c] == if y <= r < y + s && x <= c < x + s then block[r - y][c - x] else old(img[r, c])
  {
    forall r, c | y <= r < y + s && x <= c < x + s {
      img[r, c] := block[r - y][c - x];
    }
  }

  /** One step of `merge_blocks`: block `i * blocks_wide + j` written at block-row `i` and
      block-column `j`. */
  method MergeStep<T>(img: array2<T>, blocks: seq<seq<seq<T>>>, bh: nat, bw: nat, zero: T, i: nat, j: nat)
    requires blocks != [] && |blocks[0]| > 0 && SquareBlocks(blocks)
    requires bh == img.Length0 / |blocks[0]| && bw == img.Length1 / |blocks[0]|
    requires i < bh && j < bw && i * bw + j < |blocks|
    requires forall r, c :: 0 <= r < img.Length0 && 0 <= c < img.Length1 ==>
               img[r, c] == Partial(blocks, bh, bw, zero, i, j, r, c)
    modifies img
    ensures forall r, c :: 0 <= r < img.Length0 && 0 <= c < img.Length1 ==>
              img[r, c] == Partial(blocks, bh, bw, zero, i, j + 1, r, c)
  {
    var blockSize := |blocks[0]|;
    var startY, endY := i * blockSize, (i + 1) * blockSize;
    var startX, endX := j * blockSize, (j + 1) * blockSize;
    BlockInside(i, bh, blockSize);
    BlockInside(j, bw, blockSize);
    FloorMultiple(img.Length0, blockSize);
    FloorMultiple(img.Length1, blockSize);
    PasteBlock(img, blocks[i * bw + j], startY, startX, blockSize);
    forall r, c | 0 <= r < img.Length0 && 0 <= c < img.Length1
      ensures img[r, c] == Partial(blocks, bh, bw, zero, i, j + 1, r, c)
    {
      PartialStep(blocks, bh, bw, zero, i, j, r, c);
    }
  }

  /** The inner loop of `merge_blocks` for block-row `i`: blocks `i * blocks_wide` to
      `(i + 1) * blocks_wide - 1` pasted left to right. It stops with `false` where the source
      raises `IndexError` because the block list has run out. */
  method MergeRow<T>(img: array2<T>, blocks: seq<seq<seq<T>>>, bh: nat, bw: nat, zero: T, i: nat)
    returns (ok: bool)
    requires blocks != [] && |blocks[0]| > 0 && SquareBlocks(blocks)
    requires bh == img.Length0 / |blocks[0]| && bw == img.Length1 / |blocks[0]|
    requires i < bh && i * bw <= |blocks|
    requires forall r, c :: 0 <= r < img.Length0 && 0 <= c < img.Length1 ==>
               img[r, c] == Partial(blocks, bh, bw, zero, i, 0, r, c)
    modifies img
    ensures ok <==> (i + 1) * bw <= |blocks|
    ensures ok ==> forall r, c :: 0 <= r < img.Length0 && 0 <= c < img.Length1 ==>
              img[r, c] == Partial(blocks, bh, bw, zero, i + 1, 0, r, c)
  {
    BlockInside(i, bh, bw);
    assert i * bw + bw == (i + 1) * bw;
    var blockIdx := i * bw;
    for j := 0 to bw
      invariant blockIdx == i * bw + j && blockIdx <= |blocks|
      invariant forall r, c :: 0 <= r < img.Length0 && 0 <= c < img.Length1 ==>
        img[r, c] == Partial(blocks, bh, bw, zero, i, j, r, c)
    {
      if blockIdx >= |blocks| {
        return false;
      }
      MergeStep(img, blocks, bh, bw, zero, i, j);
      blockIdx := blockIdx + 1;
    }
    forall r, c | 0 <= r < img.Length0 && 0 <= c < img.Length1
      ensures img[r, c] == Partial(blocks, bh, bw, zero, i + 1, 0, r, c)
    {
      PartialNextRow(blocks, bh, bw, zero, i, r, c);
    }
    return true;
  }

  /** `merge_blocks`: a zero array of the target shape, filled block-row by block-row in
      place. */
  method MergeBlocks<T>(blocks: seq<seq<seq<T>>>, h: nat, w: nat, zero: T)
    returns (merged: Option<seq<seq<T>>>)
    requires SquareBlocks(blocks)
    ensures merged == Merge(blocks, h, w, zero)
  {
    if blocks == [] || |blocks[0]| == 0 {
      return None;
    }
    var blockSize := |blocks[0]|;
    var blocksWide := w / blockSize;
    var blocksHigh := h / blockSize;
    var img := new T[h, w]((_, _) => zero);
    PartialStart(blocks, blocksHigh, blocksWide, zero);
    var ok := MergeRows(img, blocks, blocksHigh, blocksWide, zero);
    if !ok {
      MergeShort(blocks, h, w, zero);
      return None;
    }
    var rows := Rows(img);
    MergeFilled(rows, blocks, h, w, zero);
    merged := Some(rows);
  }

  /** The outer loop of `merge_blocks`: block-rows `0` to `blocks_high - 1`, stopping with
      `false` where the block list runs out. */
  method MergeRows<T>(img: array2<T>, blocks: seq<seq<seq<T>>>, bh: nat, bw: nat, zero: T)
    returns (ok: bool)
    requires blocks != [] && |blocks[0]| > 0 && SquareBlocks(blocks)
    requires bh == img.Length0 / |blocks[0]| && bw == img.Length1 / |blocks[0]|
    requires forall r, c :: 0 <= r < img.Length0 && 0 <= c < img.Length1 ==>
               img[r, c] == Partial(blocks, bh, bw, zero, 0, 0, r, c)
    modifies img
    ensures ok <==> bh * bw <= |blocks|
    ensures ok ==> forall r, c :: 0 <= r < img.Length0 && 0 <= c < img.Length1 ==>
              img[r, c] == Partial(blocks, bh, bw, zero, bh, 0, r, c)
  {
    for i := 0 to bh
      invariant i * bw <= |blocks|
      invariant forall r, c :: 0 <= r < img.Length0 && 0 <= c < img.Length1 ==>
        img[r, c] == Partial(blocks, bh, bw, zero, i, 0, r, c)
    {
      var rowOk := MergeRow(img, blocks, bh, bw, zero, i);
      if !rowOk {
        MulMono(i + 1, bh, bw);
        return false;
      }
    }
    return true;
  }

  /** Fewer than `blocks_high * blocks_wide` blocks cannot be merged. */
  lemma MergeShort<T>(blocks: seq<seq<seq<T>>>, h: nat, w: nat, zero: T)
    requires blocks != [] && |blocks[0]| > 0 && SquareBlocks(blocks)
    requires !((h / |blocks[0]|) * (w / |blocks[0]|) <= |blocks|)
    ensures Merge(blocks, h, w, zero) == None
  {
  }

  /** A plane filled through the last block-row from enough blocks is the merged plane. */
  lemma MergeFilled<T>(m: seq<seq<T>>, blocks: seq<seq<seq<T>>>, h: nat, w: nat, zero: T)
    requires blocks != [] && |blocks[0]| > 0 && SquareBlocks(blocks) && IsMatrix(m, h, w)
    requires (h / |blocks[0]|) * (w / |blocks[0]|) <= |blocks|
    requires forall r, c :: 0 <= r < h && 0 <= c < w ==>
               m[r][c] == Partial(blocks, h / |blocks[0]|, w / |blocks[0]|, zero, h / |blocks[0]|, 0, r, c)
    ensures Merge(blocks, h, w, zero) == Some(m)
  {
    PartialComplete(m, blocks, h, w, zero);
  }

  /** A plane at least one block high and wide has a first block of side `bs`. */
  lemma DivideFirst<T>(p: seq<seq<T>>, bs: nat)
    requires IsRect(p) && bs > 0 && bs <= |p| && bs <= Width(p)
    ensures |p| / bs >= 1 && Width(p) / bs >= 1
    ensures Divide(p, bs) != [] && |Divide(p, bs)[0]| == bs && SquareBlocks(Divide(p, bs))
  {
    AtLeastOne(|p|, bs);
    AtLeastOne(Width(p), bs);
    MulMono(1, |p| / bs, Width(p) / bs);
  }

  /** The cell that `merge_blocks` takes from `divide_image(p)` at a covered `(r, c)` is
      `p[r, c]`. */
  lemma MergeCellOfDivide<T>(p: seq<seq<T>>, bs: nat, zero: T, r: nat, c: nat)
    requires IsRect(p) && bs > 0 && bs <= |p| && bs <= Width(p) && r < |p| && c < Width(p)
    requires r / bs < |p| / bs && c / bs < Width(p) / bs
    ensures Divide(p, bs) != [] && |Divide(p, bs)[0]| == bs && SquareBlocks(Divide(p, bs))
    ensures MergeCellOf(Divide(p, bs), Width(p) / bs, zero, r, c) == p[r][c]
  {
    DivideFirst(p, bs);
    DivideAt(p, bs, r / bs, c / bs);
    MergeCellOfBlock(p, Divide(p, bs), bs, zero, r, c, (r / bs) * (Width(p) / bs) + c / bs);
  }

  /** A row (or column) of the covered region lies in block `x / d` of the `n / d` blocks. */
  lemma CoveredSplit(x: nat, d: nat, n: nat)
    requires d > 0 && x < (n / d) * d
    ensures x < n && x / d < n / d
  {
    FloorMultiple(n, d);
    DivModBounds(x, d, n / d);
  }

  /** If the block numbered `(r / bs) * bw + c / bs` is the plane's block `(r / bs, c / bs)`,
      `merge_blocks` takes the plane's cell `(r, c)` from it. */
  lemma MergeCellOfBlock<T>(p: seq<seq<T>>, blocks: seq<seq<seq<T>>>, bs: nat, zero: T, r: nat, c: nat, k: nat)
    requires IsRect(p) && bs > 0 && r < |p| && c < Width(p)
    requires r / bs < |p| / bs && c / bs < Width(p) / bs
    requires blocks != [] && |blocks[0]| == bs && SquareBlocks(blocks)
    requires k == (r / bs) * (Width(p) / bs) + c / bs && k < |blocks|
    requires blocks[k] == BlockAt(p, bs, r / bs, c / bs)
    ensures MergeCellOf(blocks, Width(p) / bs, zero, r, c) == p[r][c]
  {
    MergeCellAt(blocks, bs, Width(p) / bs, zero, r, c, k);
    BlockCell(p, bs, r, c);
  }

  /** `merge_blocks` reads cell `(r, c)` from block `(r // bs) * bw + c // bs`. */
  lemma MergeCellAt<T>(blocks: seq<seq<seq<T>>>, bs: nat, bw: nat, zero: T, r: nat, c: nat, k: nat)
    requires blocks != [] && |blocks[0]| == bs > 0 && SquareBlocks(blocks)
    requires k == (r / bs) * bw + c / bs && k < |blocks|
    ensures r % bs < |blocks[k]| && c % bs < |blocks[k][r % bs]|
    ensures MergeCellOf(blocks, bw, zero, r, c) == blocks[k][r % bs][c % bs]
  {
  }

  /** Cell `(r % bs, c % bs)` of block `(r / bs, c / bs)` is cell `(r, c)` of the plane. */
  lemma BlockCell<T>(p: seq<seq<T>>, bs: nat, r: nat, c: nat)
    requires IsRect(p) && bs > 0 && r < |p| && c < Width(p)
    requires r / bs < |p| / bs && c / bs < Width(p) / bs
    ensures BlockAt(p, bs, r / bs, c / bs)[r % bs][c % bs] == p[r][c]
  {
    var blk := BlockAt(p, bs, r / bs, c / bs);
    FloorMultiple(r, bs);
    FloorMultiple(c, bs);
    assert blk[r % bs][c % bs] == p[(r / bs) * bs + r % bs][(c / bs) * bs + c % bs];
  }

  /** Merging the blocks of a plane gives the plane back on the covered region and zero on
      the cropped border. */
  lemma MergeDivide<T>(p: seq<seq<T>>, bs: nat, zero: T)
    requires IsRect(p) && bs > 0 && bs <= |p| && bs <= Width(p)
    ensures Merge(Divide(p, bs), |p|, Width(p), zero).Some?
    ensures var m := Merge(Divide(p, bs), |p|, Width(p), zero).value;
            forall r, c :: 0 <= r < |p| && 0 <= c < Width(p) ==>
              m[r][c] == (if r < (|p| / bs) * bs && c < (Width(p) / bs) * bs then p[r][c] else zero)
  {
    DivideFirst(p, bs);
    var blocks := Divide(p, bs);
    var m := MergedPlane(blocks, |p|, Width(p), zero);
    assert Merge(blocks, |p|, Width(p), zero) == Some(m);
    forall r, c | 0 <= r < |p| && 0 <= c < Width(p)
      ensures m[r][c] == (if r < (|p| / bs) * bs && c < (Width(p) / bs) * bs then p[r][c] else zero)
    {
      MergedPlaneOfDivide(p, bs, zero, r, c);
    }
  }

  /** One cell of the plane merged from `divide_image(p)`. */
  lemma MergedPlaneOfDivide<T>(p: seq<seq<T>>, bs: nat, zero: T, r: nat, c: nat)
    requires IsRect(p) && bs > 0 && bs <= |p| && bs <= Width(p) && r < |p| && c < Width(p)
    requires Divide(p, bs) != [] && |Divide(p, bs)[0]| == bs && SquareBlocks(Divide(p, bs))
    ensures MergedPlane(Divide(p, bs), |p|, Width(p), zero)[r][c] ==
      if r < (|p| / bs) * bs && c < (Width(p) / bs) * bs then p[r][c] else zero
  {
    if r < (|p| / bs) * bs && c < (Width(p) / bs) * bs {
      CoveredSplit(r, bs, |p|);
      CoveredSplit(c, bs, Width(p));
      MergeCellOfDivide(p, bs, zero, r, c);
    }
  }

  /** `merge_blocks(divide_image(p, s), p.shape) == p` when `s` divides both dimensions. */
  lemma MergeDivideExact<T>(p: seq<seq<T>>, bs: nat, zero: T)
    requires IsRect(p) && bs > 0 && bs <= |p| && bs <= Width(p)
    requires |p| % bs == 0 && Width(p) % bs == 0
    ensures Merge(Divide(p, bs), |p|, Width(p), zero) == Some(p)
  {
    var h, w := |p|, Width(p);
    FloorMultiple(h, bs);
    FloorMultiple(w, bs);
    var coveredH, coveredW := (h / bs) * bs, (w / bs) * bs;
    assert coveredH == h && coveredW == w;
    MergeDivide(p, bs, zero);
    var m := Merge(Divide(p, bs), h, w, zero).value;
    forall r, c | 0 <= r < h && 0 <= c < w
      ensures m[r][c] == p[r][c]
    {
      assert r < coveredH && c < coveredW;
    }
    SameMatrix(m, p, h, w);
  }

  /** `divide_image` reads nothing beyond the last full block: planes that agree on the
      covered region have the same blocks. */
  lemma DivideIgnoresBorder<T>(p: seq<seq<T>>, q: seq<seq<T>>, bs: nat)
    requires IsRect(p) && IsRect(q) && bs > 0
    requires |p| / bs == |q| / bs && Width(p) / bs == Width(q) / bs
    requires forall r, c :: 0 <= r < (|p| / bs) * bs && 0 <= c < (Width(p) / bs) * bs ==>
               p[r][c] == q[r][c]
    ensures Divide(p, bs) == Divide(q, bs)
  {
    var bh, bw := |p| / bs, Width(p) / bs;
    var gp, gq := BlockGrid(p, bs), BlockGrid(q, bs);
    forall i | 0 <= i < bh
      ensures gp[i] == gq[i]
    {
      forall j | 0 <= j < bw
        ensures gp[i][j] == gq[i][j]
      {
        SameBlock(p, q, bs, i, j);
      }
    }
    assert gp == gq;
  }

  lemma SameBlock<T>(p: seq<seq<T>>, q: seq<seq<T>>, bs: nat, i: nat, j: nat)
    requires IsRect(p) && IsRect(q) && bs > 0
    requires |p| / bs == |q| / bs && Width(p) / bs == Width(q) / bs
    requires i < |p| / bs && j < Width(p) / bs
    requires forall r, c :: 0 <= r < (|p| / bs) * bs && 0 <= c < (Width(p) / bs) * bs ==>
               p[r][c] == q[r][c]
    ensures BlockAt(p, bs, i, j) == BlockAt(q, bs, i, j)
  {
    var a, b := BlockAt(p, bs, i, j), BlockAt(q, bs, i, j);
    BlockInside(i, |p| / bs, bs);
    BlockInside(j, Width(p) / bs, bs);
    forall r | 0 <= r < bs
      ensures a[r] == b[r]
    {
      assert forall c :: 0 <= c < bs ==> a[r][c] == b[r][c];
    }
  }

  /** Cell by cell, merging ignores blocks past `blocks_high * blocks_wide`. */
  lemma MergeCellOfPrefix<T>(blocks: seq<seq<seq<T>>>, extra: seq<seq<seq<T>>>, bh: nat, bw: nat, zero: T, r: nat, c: nat)
    requires SquareBlocks(blocks + extra) && SquareBlocks(blocks) && blocks != [] && |blocks[0]| > 0
    requires |blocks| >= bh * bw && r < bh * |blocks[0]| && c < bw * |blocks[0]|
    ensures MergeCellOf(blocks + extra, bw, zero, r, c) == MergeCellOf(blocks, bw, zero, r, c)
  {
    var bs := |blocks[0]|;
    DivModBounds(r, bs, bh);
    DivModBounds(c, bs, bw);
    BlockInside(r / bs, bh, bw);
  }

  /** Blocks after the first `blocks_high * blocks_wide` are never read. */
  lemma MergeIgnoresExtraBlocks<T>(blocks: seq<seq<seq<T>>>, extra: seq<seq<seq<T>>>, h: nat, w: nat, zero: T)
    requires SquareBlocks(blocks + extra) && blocks != [] && |blocks[0]| > 0
    requires |blocks| >= (h / |blocks[0]|) * (w / |blocks[0]|)
    ensures SquareBlocks(blocks)
    ensures Merge(blocks + extra, h, w, zero) == Merge(blocks, h, w, zero)
  {
    var all := blocks + extra;
    assert forall k :: 0 <= k < |blocks| ==> all[k] == blocks[k];
    var a, b := MergedPlane(all, h, w, zero), MergedPlane(blocks, h, w, zero);
    forall r, c | 0 <= r < h && 0 <= c < w
      ensures a[r][c] == b[r][c]
    {
      MergedPlanePrefixCell(blocks, extra, h, w, zero, r, c);
    }
    SameMatrix(a, b, h, w);
  }

  /** One cell of the merged plane is the same with or without the extra blocks. */
  lemma MergedPlanePrefixCell<T>(blocks: seq<seq<seq<T>>>, extra: seq<seq<seq<T>>>, h: nat, w: nat, zero: T, r: nat, c: nat)
    requires SquareBlocks(blocks + extra) && SquareBlocks(blocks) && blocks != [] && |blocks[0]| > 0
    requires |blocks| >= (h / |blocks[0]|) * (w / |blocks[0]|) && r < h && c < w
    ensures MergedPlane(blocks + extra, h, w, zero)[r][c] == MergedPlane(blocks, h, w, zero)[r][c]
  {
    var bs := |blocks[0]|;
    assert (blocks + extra)[0] == blocks[0];
    if r < (h / bs) * bs && c < (w / bs) * bs {
      MergeCellOfPrefix(blocks, extra, h / bs, w / bs, zero, r, c);
    }
  }
}
