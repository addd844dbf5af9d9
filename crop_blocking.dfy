/** Block partitioning of the base-4 coder (stego/coder/transform/blocking.py) and its older
    copy (stego/transform/blocking.py): cropping and padding sizes, `np.split` into a grid of
    blocks, `np.block` back into a plane, and the `CropBlocker` that pastes a stacked grid
    over a copy of its image. */
module CropBlocking {
  import opened Common
  import opened CoreBlocking

  /** `dimension - dimension % block_size`: the largest multiple of the block size that fits. */
  function FitSize(d: nat, bs: nat): (r: nat)
    requires bs > 0
    ensures r % bs == 0 && r <= d && d - r < bs
  {
    FloorMultiple(d, bs);
    MulDivExact(d / bs, bs);
    d - d % bs
  }

  /** No larger multiple of the block size fits. */
  lemma FitSizeLargest(d: nat, bs: nat, m: nat)
    requires bs > 0 && m % bs == 0 && m <= d
    ensures m <= FitSize(d, bs)
  {
    FloorMultiple(d, bs);
    FloorMultiple(m, bs);
    DivMono(m, d, bs);
    MulMono(m / bs, d / bs, bs);
  }

  /** `crop_to_fit`: the new size of each dimension is computed in a loop, then the top-left
      part of that size is kept. It is `crop_image_to_divisible` of the wavelet codec. */
  method CropToFit<T>(img: seq<seq<T>>, bs: nat) returns (cropped: seq<seq<T>>)
    requires IsRect(img) && bs > 0
    ensures cropped == CropImageToDivisible(img, bs).0
  {
    var shape := [|img|, Width(img)];
    var newSize: seq<nat> := [];
    for d := 0 to |shape|
      invariant |newSize| == d
      invariant forall k :: 0 <= k < d ==> newSize[k] == FitSize(shape[k], bs)
    {
      newSize := newSize + [shape[d] - shape[d] % bs];
    }
    FitIsNewShape(img, bs);
    cropped := SubMatrix(img, 0, 0, newSize[0], newSize[1]);
  }

  /** The sizes `crop_to_fit` computes are the shape `get_new_shape` gives. */
  lemma FitIsNewShape<T>(img: seq<seq<T>>, bs: nat)
    requires IsRect(img) && bs > 0
    ensures FitSize(|img|, bs) == GetNewShape(img, bs).0 && FitSize(Width(img), bs) == GetNewShape(img, bs).1
    ensures SubMatrix(img, 0, 0, FitSize(|img|, bs), FitSize(Width(img), bs)) == CropImageToDivisible(img, bs).0
  {
    FloorMultiple(|img|, bs);
    FloorMultiple(Width(img), bs);
  }

  /** `(block_size - d % block_size) % block_size`: the fewest rows or columns that make the
      dimension a multiple of the block size. */
  function PadAmount(d: nat, bs: nat): (p: nat)
    requires bs > 0
    ensures p < bs && (d + p) % bs == 0
  {
    var m := d % bs;
    FloorMultiple(d, bs);
    if m == 0 then 0
    else
      MulDivExact(d / bs + 1, bs);
      assert d + (bs - m) == (d / bs + 1) * bs;
      bs - m
  }

  /** No smaller padding reaches a multiple. */
  lemma PadAmountLeast(d: nat, bs: nat, q: nat)
    requires bs > 0 && q < PadAmount(d, bs)
    ensures (d + q) % bs != 0
  {
    FloorMultiple(d, bs);
    DivModUnique(d + q, bs, d / bs, d % bs + q);
  }

  /** The `padding_size` loop of `pad_image`. */
  method PaddingSize(shape: seq<nat>, bs: nat) returns (padding: seq<nat>)
    requires bs > 0
    ensures |padding| == |shape|
    ensures forall k :: 0 <= k < |shape| ==> padding[k] == PadAmount(shape[k], bs)
  {
    padding := [];
    for d := 0 to |shape|
      invariant |padding| == d
      invariant forall k :: 0 <= k < d ==> padding[k] == PadAmount(shape[k], bs)
    {
      PadAmountMod(shape[d], bs);
      padding := padding + [(bs - shape[d] % bs) % bs];
    }
  }

  /** The expression the loop evaluates is the padding amount. */
  lemma PadAmountMod(d: nat, bs: nat)
    requires bs > 0
    ensures 0 <= (bs - d % bs) % bs == PadAmount(d, bs)
  {
    var m := d % bs;
    if m == 0 {
      DivModUnique(bs, bs, 1, 0);
    } else {
      DivModUnique(bs - m, bs, 0, bs - m);
    }
  }

  /** The source position `cv2.BORDER_REFLECT` reads for position `p` of a line of `n`
      values (`fedcba|abcdefgh|hgfedcb`, mirrored again past each end). */
  function Reflect(p: nat, n: nat): (r: nat)
    requires n > 0
    ensures r < n
    ensures p < n ==> r == p
    ensures n <= p < 2 * n ==> r == 2 * n - 1 - p
  {
    var q := p % (2 * n);
    if p < 2 * n then
      DivModUnique(p, 2 * n, 0, p);
      if q < n then q else 2 * n - 1 - q
    else
      if q < n then q else 2 * n - 1 - q
  }

  /** `pad_image`: reflected rows added at the bottom and reflected columns at the right until
      both dimensions are multiples of the block size. */
  function PadImage<T>(img: seq<seq<T>>, bs: nat): (padded: seq<seq<T>>)
    requires IsRect(img) && |img| > 0 && Width(img) > 0 && bs > 0
    ensures IsMatrix(padded, |img| + PadAmount(|img|, bs), Width(img) + PadAmount(Width(img), bs))
    ensures |padded| % bs == 0 && Width(padded) % bs == 0
    ensures forall i, j :: 0 <= i < |img| && 0 <= j < Width(img) ==> padded[i][j] == img[i][j]
  {
    var h, w := |img|, Width(img);
    var rows, cols := h + PadAmount(h, bs), w + PadAmount(w, bs);
    seq(rows, i requires 0 <= i < rows => ReflectRow(img[Reflect(i, h)], cols))
  }

  /** One row of `pad_image`: the row followed by its reflection, `cols` values long. */
  function ReflectRow<T>(row: seq<T>, cols: nat): (r: seq<T>)
    requires |row| > 0
    ensures |r| == cols
    ensures forall j :: 0 <= j < |row| && j < cols ==> r[j] == row[j]
  {
    seq(cols, j requires 0 <= j < cols => row[Reflect(j, |row|)])
  }

  /** `g` holds `nh` rows of `nw` blocks of `ph x pw` cells. */
  ghost predicate GridShape<T>(g: seq<seq<seq<seq<T>>>>, nh: nat, nw: nat, ph: nat, pw: nat) {
    |g| == nh && (forall i :: 0 <= i < nh ==> |g[i]| == nw) &&
    forall i, j :: 0 <= i < nh && 0 <= j < nw ==>
      |g[i][j]| == ph && forall r :: 0 <= r < ph ==> |g[i][j][r]| == pw
  }

  /** The rows after the first of a grid form a grid of one row fewer. */
  lemma GridTail<T>(g: seq<seq<seq<seq<T>>>>, nh: nat, nw: nat, ph: nat, pw: nat)
    requires GridShape(g, nh, nw, ph, pw) && nh > 0
    ensures |g[0]| == nw && GridShape(g[1..], nh - 1, nw, ph, pw)
  {
  }

  /** What `np.block` accepts here: a non-empty grid of blocks of one non-empty shape. */
  ghost predicate IsGrid<T>(g: seq<seq<seq<seq<T>>>>) {
    |g| > 0 && |g[0]| > 0 && |g[0][0]| > 0 && |g[0][0][0]| > 0 &&
    GridShape(g, |g|, |g[0]|, |g[0][0]|, |g[0][0][0]|)
  }

  /** The block in block-row `i`, block-column `j` of `ph x pw` blocks. */
  function RectBlock<T>(img: seq<seq<T>>, ph: nat, pw: nat, nh: nat, nw: nat, i: nat, j: nat): (b: seq<seq<T>>)
    requires IsRect(img) && nh * ph <= |img| && nw * pw <= Width(img) && i < nh && j < nw
    ensures 0 <= i * ph && i * ph + ph <= |img| && 0 <= j * pw && j * pw + pw <= Width(img)
    ensures IsMatrix(b, ph, pw)
    ensures forall r, c :: 0 <= r < ph && 0 <= c < pw ==> b[r][c] == img[i * ph + r][j * pw + c]
  {
    BlockInside(i, nh, ph);
    BlockInside(j, nw, pw);
    SubMatrix(img, i * ph, j * pw, ph, pw)
  }

  /** `nh` rows of `nw` blocks cut from the top-left of a plane. */
  function RectGrid<T>(img: seq<seq<T>>, ph: nat, pw: nat, nh: nat, nw: nat): (g: seq<seq<seq<seq<T>>>>)
    requires IsRect(img) && nh * ph <= |img| && nw * pw <= Width(img)
    ensures GridShape(g, nh, nw, ph, pw)
    ensures forall i, j :: 0 <= i < nh && 0 <= j < nw ==> g[i][j] == RectBlock(img, ph, pw, nh, nw, i, j)
  {
    seq(nh, i requires 0 <= i < nh =>
      seq(nw, j requires 0 <= j < nw => RectBlock(img, ph, pw, nh, nw, i, j)))
  }

  /** `[np.split(band, nw, axis=1) for band in np.split(img, nh, axis=0)]`: equal parts, or
      failure when a count is zero (`ZeroDivisionError`) or does not divide the dimension
      (`ValueError`). */
  function NpSplit<T>(img: seq<seq<T>>, nh: nat, nw: nat): (r: Option<seq<seq<seq<seq<T>>>>>)
    requires IsRect(img)
    ensures r.Some? <==> nh > 0 && nw > 0 && |img| % nh == 0 && Width(img) % nw == 0
    ensures r.Some? ==> GridShape(r.value, nh, nw, |img| / nh, Width(img) / nw)
  {
    if nh == 0 || nw == 0 || |img| % nh != 0 || Width(img) % nw != 0 then None
    else
      MulDivExact(|img| / nh, nh);
      FloorMultiple(|img|, nh);
      FloorMultiple(Width(img), nw);
      Some(RectGrid(img, |img| / nh, Width(img) / nw, nh, nw))
  }

  /** Cell `(y, x)` of the stacked grid. */
  function StackCell<T>(g: seq<seq<seq<seq<T>>>>, y: nat, x: nat): T
    requires IsGrid(g) && y < |g| * |g[0][0]| && x < |g[0]| * |g[0][0][0]|
  {
    var ph, pw := |g[0][0]|, |g[0][0][0]|;
    GridCellIndex(g, y, x);
    g[y / ph][x / pw][y % ph][x % pw]
  }

  /** Cell `(y, x)` of the stacked grid lies in block `(y / ph, x / pw)` at offset
      `(y % ph, x % pw)`, all in range. */
  lemma GridCellIndex<T>(g: seq<seq<seq<seq<T>>>>, y: nat, x: nat)
    requires IsGrid(g) && y < |g| * |g[0][0]| && x < |g[0]| * |g[0][0][0]|
    ensures y / |g[0][0]| < |g| && x / |g[0][0][0]| < |g[y / |g[0][0]|]|
    ensures y % |g[0][0]| < |g[y / |g[0][0]|][x / |g[0][0][0]|]|
    ensures x % |g[0][0][0]| < |g[y / |g[0][0]|][x / |g[0][0][0]|][y % |g[0][0]|]|
  {
    var ph, pw := |g[0][0]|, |g[0][0][0]|;
    DivModBounds(y, ph, |g|);
    DivModBounds(x, pw, |g[0]|);
  }

  /** Inside the stacked grid, block `(i, j)` holds the cells `(i * ph + r, j * pw + c)`. */
  lemma StackCellAt<T>(g: seq<seq<seq<seq<T>>>>, i: nat, j: nat, r: nat, c: nat)
    requires IsGrid(g) && i < |g| && j < |g[0]| && r < |g[0][0]| && c < |g[0][0][0]|
    ensures i * |g[0][0]| + r < |g| * |g[0][0]| && j * |g[0][0][0]| + c < |g[0]| * |g[0][0][0]|
    ensures StackCell(g, i * |g[0][0]| + r, j * |g[0][0][0]| + c) == g[i][j][r][c]
  {
    var ph, pw := |g[0][0]|, |g[0][0][0]|;
    BlockInside(i, |g|, ph);
    BlockInside(j, |g[0]|, pw);
    DivModUnique(i * ph + r, ph, i, r);
    DivModUnique(j * pw + c, pw, j, c);
  }

  /** `np.block(blocks)` (`stack_image`): the blocks laid out side by side and row under row. */
  function Stacked<T>(g: seq<seq<seq<seq<T>>>>): (p: seq<seq<T>>)
    requires IsGrid(g)
    ensures IsMatrix(p, |g| * |g[0][0]|, |g[0]| * |g[0][0][0]|)
  {
    seq(|g| * |g[0][0]|, y requires 0 <= y < |g| * |g[0][0]| =>
      seq(|g[0]| * |g[0][0][0]|, x requires 0 <= x < |g[0]| * |g[0][0][0]| => StackCell(g, y, x)))
  }

  /** Stacking the blocks of a rectangular grid cut from a plane gives back the part of the
      plane it was cut from. */
  lemma StackRectGrid<T>(img: seq<seq<T>>, ph: nat, pw: nat, nh: nat, nw: nat)
    requires IsRect(img) && nh * ph <= |img| && nw * pw <= Width(img)
    requires nh > 0 && nw > 0 && ph > 0 && pw > 0
    ensures IsGrid(RectGrid(img, ph, pw, nh, nw))
    ensures Stacked(RectGrid(img, ph, pw, nh, nw)) == SubMatrix(img, 0, 0, nh * ph, nw * pw)
  {
    var g := RectGrid(img, ph, pw, nh, nw);
    var p, q := Stacked(g), SubMatrix(img, 0, 0, nh * ph, nw * pw);
    forall y, x | 0 <= y < nh * ph && 0 <= x < nw * pw
      ensures p[y][x] == q[y][x]
    {
      StackRectCell(img, ph, pw, nh, nw, y, x);
    }
    SameMatrix(p, q, nh * ph, nw * pw);
  }

  lemma StackRectCell<T>(img: seq<seq<T>>, ph: nat, pw: nat, nh: nat, nw: nat, y: nat, x: nat)
    requires IsRect(img) && nh * ph <= |img| && nw * pw <= Width(img)
    requires nh > 0 && nw > 0 && ph > 0 && pw > 0
    requires y < nh * ph && x < nw * pw
    ensures IsGrid(RectGrid(img, ph, pw, nh, nw))
    ensures StackCell(RectGrid(img, ph, pw, nh, nw), y, x) == img[y][x]
  {
    var g := RectGrid(img, ph, pw, nh, nw);
    DivModBounds(y, ph, nh);
    DivModBounds(x, pw, nw);
    var b := RectBlock(img, ph, pw, nh, nw, y / ph, x / pw);
    assert g[y / ph][x / pw] == b;
    assert b[y % ph][x % pw] == img[(y / ph) * ph + y % ph][(x / pw) * pw + x % pw];
  }

  /** `stack_image(divide_image(img))` is the image whenever `divide_image` succeeds, whatever
      the shape of the parts. */
  lemma StackSplit<T>(img: seq<seq<T>>, nh: nat, nw: nat)
    requires IsRect(img) && |img| > 0 && Width(img) > 0 && NpSplit(img, nh, nw).Some?
    ensures IsGrid(NpSplit(img, nh, nw).value)
    ensures Stacked(NpSplit(img, nh, nw).value) == img
  {
    var ph, pw := |img| / nh, Width(img) / nw;
    FloorMultiple(|img|, nh);
    FloorMultiple(Width(img), nw);
    assert nh * ph == |img| && nw * pw == Width(img);
    StackRectGrid(img, ph, pw, nh, nw);
    SameMatrix(SubMatrix(img, 0, 0, |img|, Width(img)), img, |img|, Width(img));
  }

  /** `perfect_divide_image` (and `divide_image` of stego/transform/blocking.py): the plane
      split into `h // block_size` bands and each band into `w // block_size` parts, without
      cropping; a zero block size fails (`ZeroDivisionError`). */
  function PerfectDivide<T>(img: seq<seq<T>>, bs: nat): (r: Option<seq<seq<seq<seq<T>>>>>)
    requires IsRect(img)
    ensures r.Some? ==>
              bs > 0 &&
              var nh, nw := |img| / bs, Width(img) / bs;
              nh > 0 && nw > 0 && GridShape(r.value, nh, nw, |img| / nh, Width(img) / nw)
  {
    if bs == 0 then None
    else
      var nh, nw := |img| / bs, Width(img) / bs;
      NpSplit(img, nh, nw)
  }

  /** `perfect_divide_image` succeeds exactly when a block fits and `h // bs` and `w // bs`
      parts divide the plane evenly; a block size dividing both dimensions is enough. */
  lemma PerfectDivideDefined<T>(img: seq<seq<T>>, bs: nat)
    requires IsRect(img)
    ensures PerfectDivide(img, bs).Some? <==>
      (bs > 0 && |img| >= bs && Width(img) >= bs && |img| % (|img| / bs) == 0 && Width(img) % (Width(img) / bs) == 0)
    ensures bs > 0 && |img| >= bs && Width(img) >= bs && |img| % bs == 0 && Width(img) % bs == 0 ==>
      PerfectDivide(img, bs).Some?
  {
    if bs > 0 {
      var h, w := |img|, Width(img);
      if h < bs {
        DivideNoneBelow(h, bs);
      } else {
        AtLeastOne(h, bs);
      }
      if w < bs {
        DivideNoneBelow(w, bs);
      } else {
        AtLeastOne(w, bs);
      }
      if h >= bs && w >= bs && h % bs == 0 && w % bs == 0 {
        Cofactor(h, bs);
        Cofactor(w, bs);
      }
    }
  }

  /** Less than a block gives no part. */
  lemma DivideNoneBelow(h: nat, bs: nat)
    requires 0 <= h < bs
    ensures h / bs == 0
  {
    DivModUnique(h, bs, 0, h);
  }

  /** A multiple of `bs` splits evenly into `h / bs` parts. */
  lemma Cofactor(h: nat, bs: nat)
    requires bs > 0 && h >= bs && h % bs == 0
    ensures h / bs > 0 && h % (h / bs) == 0
  {
    var q := h / bs;
    AtLeastOne(h, bs);
    FloorMultiple(h, bs);
    assert h == q * bs;
    assert q * bs == bs * q;
    MulDivExact(bs, q);
  }

  /** `divide_image` / `CropBlocker.divide`: crop to multiples of the block size, then
      split into `h // block_size` bands of `w // block_size` blocks. */
  function CropDivide<T>(img: seq<seq<T>>, bs: nat): (r: Option<seq<seq<seq<seq<T>>>>>)
    requires IsRect(img)
    ensures r.Some? ==> bs > 0 && GridShape(r.value, |img| / bs, Width(img) / bs, bs, bs)
  {
    if bs == 0 then None
    else
      CroppedPartSize(img, bs);
      NpSplit(CropImageToDivisible(img, bs).0, |img| / bs, Width(img) / bs)
  }

  /** Split into `h // bs` by `w // bs` parts, the cropped plane has parts of exactly
      `bs x bs`. */
  lemma CroppedPartSize<T>(img: seq<seq<T>>, bs: nat)
    requires IsRect(img) && bs > 0
    ensures var c := CropImageToDivisible(img, bs).0;
      |img| / bs > 0 && Width(img) / bs > 0 ==>
        |c| / (|img| / bs) == bs && Width(c) / (Width(img) / bs) == bs
  {
    var c := CropImageToDivisible(img, bs).0;
    var nh, nw := |img| / bs, Width(img) / bs;
    if nh > 0 && nw > 0 {
      FloorMultiple(|img|, bs);
      FloorMultiple(Width(img), bs);
      assert |c| == nh * bs && Width(c) == nw * bs;
      MulDivExact(bs, nh);
      MulDivExact(bs, nw);
    }
  }

  /** Cropping first makes every part exactly `bs x bs`: `divide_image` succeeds exactly when
      a whole block fits, and yields the row-major block grid of the uncropped plane. */
  lemma CropDivideIsBlockGrid<T>(img: seq<seq<T>>, bs: nat)
    requires IsRect(img)
    ensures CropDivide(img, bs).Some? <==> bs > 0 && |img| >= bs && Width(img) >= bs
    ensures CropDivide(img, bs).Some? ==> CropDivide(img, bs).value == BlockGrid(img, bs)
  {
    if bs > 0 {
      if |img| < bs {
        DivideNoneBelow(|img|, bs);
      } else if Width(img) < bs {
        DivideNoneBelow(Width(img), bs);
      } else {
        DivideBlocks(img, bs);
      }
    }
  }

  lemma DivideBlocks<T>(img: seq<seq<T>>, bs: nat)
    requires IsRect(img) && bs > 0 && |img| >= bs && Width(img) >= bs
    ensures CropDivide(img, bs).Some?
    ensures CropDivide(img, bs).value == BlockGrid(img, bs)
  {
    var h, w := |img|, Width(img);
    var c := CropImageToDivisible(img, bs).0;
    var nh, nw := h / bs, w / bs;
    FloorMultiple(h, bs);
    FloorMultiple(w, bs);
    AtLeastOne(h, bs);
    AtLeastOne(w, bs);
    assert |c| == nh * bs && Width(c) == nw * bs;
    MulDivExact(bs, nh);
    MulDivExact(bs, nw);
    assert |c| / nh == bs && Width(c) / nw == bs;
    var g := RectGrid(c, bs, bs, nh, nw);
    var b := BlockGrid(img, bs);
    forall i, j | 0 <= i < nh && 0 <= j < nw
      ensures g[i][j] == b[i][j]
    {
      CroppedBlock(img, bs, i, j);
    }
    SameMatrix(g, b, nh, nw);
  }

  /** One block of the cropped plane is that block of the plane itself. */
  lemma CroppedBlock<T>(img: seq<seq<T>>, bs: nat, i: nat, j: nat)
    requires IsRect(img) && bs > 0 && i < |img| / bs && j < Width(img) / bs
    ensures var c := CropImageToDivisible(img, bs).0;
      IsRect(c) && (|img| / bs) * bs <= |c| && (Width(img) / bs) * bs <= Width(c) &&
      RectBlock(c, bs, bs, |img| / bs, Width(img) / bs, i, j) == BlockAt(img, bs, i, j)
  {
    var c := CropImageToDivisible(img, bs).0;
    var nh, nw := |img| / bs, Width(img) / bs;
    assert |c| == nh * bs && Width(c) == nw * bs;
    var x, y := RectBlock(c, bs, bs, nh, nw, i, j), BlockAt(img, bs, i, j);
    forall r, s | 0 <= r < bs && 0 <= s < bs
      ensures x[r][s] == y[r][s]
    {
      BlockInside(i, nh, bs);
      BlockInside(j, nw, bs);
    }
    SameMatrix(x, y, bs, bs);
  }

  /** When the block size divides both dimensions, `perfect_divide_image` is `divide_image`. */
  lemma PerfectDivideExact<T>(img: seq<seq<T>>, bs: nat)
    requires IsRect(img) && bs > 0 && |img| >= bs && Width(img) >= bs
    requires |img| % bs == 0 && Width(img) % bs == 0
    ensures PerfectDivide(img, bs) == CropDivide(img, bs)
  {
    var c := CropImageToDivisible(img, bs).0;
    assert c == img by {
      SameMatrix(c, img, |img|, Width(img));
    }
  }

  /** As written, `perfect_divide_image` accepts a 10 x 10 plane with block size 4 (two bands
      of two parts divide it evenly) and returns 5 x 5 blocks. */
  lemma PerfectDivideOddBlocks()
    ensures var img := Repeat(Repeat(0, 10), 10);
      IsRect(img) && PerfectDivide(img, 4).Some? && |PerfectDivide(img, 4).value[0][0]| == 5
  {
    var img := Repeat(Repeat(0, 10), 10);
    assert IsRect(img);
  }

  /** The division the name promises: blocks of exactly `bs x bs`, and failure unless the block
      size divides both dimensions. */
  function ExactDivide<T>(img: seq<seq<T>>, bs: nat): (r: Option<seq<seq<seq<seq<T>>>>>)
    requires IsRect(img)
    ensures r.Some? <==> bs > 0 && |img| >= bs && Width(img) >= bs && |img| % bs == 0 && Width(img) % bs == 0
    ensures r.Some? ==> GridShape(r.value, |img| / bs, Width(img) / bs, bs, bs)
  {
    if bs == 0 || |img| < bs || Width(img) < bs || |img| % bs != 0 || Width(img) % bs != 0 then None
    else
      CropDivideIsBlockGrid(img, bs);
      CropDivide(img, bs)
  }

  /** The exact division stacks back to the plane, and agrees with `perfect_divide_image`
      wherever the block size divides the plane. */
  lemma ExactDivideStacks<T>(img: seq<seq<T>>, bs: nat)
    requires IsRect(img) && ExactDivide(img, bs).Some?
    ensures PerfectDivide(img, bs) == ExactDivide(img, bs)
    ensures IsGrid(ExactDivide(img, bs).value) && Stacked(ExactDivide(img, bs).value) == img
  {
    PerfectDivideExact(img, bs);
    FloorMultiple(|img|, bs);
    FloorMultiple(Width(img), bs);
    MulDivExact(|img| / bs, bs);
    MulDivExact(Width(img) / bs, bs);
    StackSplit(img, |img| / bs, Width(img) / bs);
  }

  /** `image[:h, :w] = stacked` on a copy of `base`. */
  function Overlay<T>(base: seq<seq<T>>, top: seq<seq<T>>): (r: seq<seq<T>>)
    requires IsRect(base) && IsRect(top) && |top| <= |base| && Width(top) <= Width(base)
    ensures IsMatrix(r, |base|, Width(base))
  {
    seq(|base|, i requires 0 <= i < |base| =>
      seq(Width(base), j requires 0 <= j < Width(base) =>
        if i < |top| && j < Width(top) then top[i][j] else base[i][j]))
  }

  /** Pasting a plane's own top-left part over it changes nothing. */
  lemma OverlayOwnPart<T>(base: seq<seq<T>>, h: nat, w: nat)
    requires IsRect(base) && h <= |base| && w <= Width(base) && (h > 0 || w == 0)
    ensures IsRect(SubMatrix(base, 0, 0, h, w))
    ensures Overlay(base, SubMatrix(base, 0, 0, h, w)) == base
  {
    var top := SubMatrix(base, 0, 0, h, w);
    SameMatrix(Overlay(base, top), base, |base|, Width(base));
  }

  /** Cutting a plane into `bs x bs` blocks after a grid of such blocks was pasted over its
      top-left gives back that grid: what `divide` reads is what `stack` wrote. */
  lemma DivideStacked<T>(img: seq<seq<T>>, bs: nat, g: seq<seq<seq<seq<T>>>>)
    requires IsRect(img) && bs > 0 && |img| >= bs && Width(img) >= bs
    requires GridShape(g, |img| / bs, Width(img) / bs, bs, bs)
    ensures IsGrid(g)
    ensures var s := Stacked(g);
      |s| <= |img| && Width(s) <= Width(img) && IsRect(Overlay(img, s)) &&
      |Overlay(img, s)| == |img| && Width(Overlay(img, s)) == Width(img) &&
      BlockGrid(Overlay(img, s), bs) == g
  {
    var nh, nw := |img| / bs, Width(img) / bs;
    AtLeastOne(|img|, bs);
    AtLeastOne(Width(img), bs);
    FloorMultiple(|img|, bs);
    FloorMultiple(Width(img), bs);
    var s := Stacked(g);
    var o := Overlay(img, s);
    var b := BlockGrid(o, bs);
    forall i, j | 0 <= i < nh && 0 <= j < nw
      ensures b[i][j] == g[i][j]
    {
      forall r, c | 0 <= r < bs && 0 <= c < bs
        ensures b[i][j][r][c] == g[i][j][r][c]
      {
        StackedCell(img, bs, g, i, j, r, c);
      }
      SameMatrix(b[i][j], g[i][j], bs, bs);
    }
    SameMatrix(b, g, nh, nw);
  }

  /** Cell `(r, c)` of block `(i, j)` of the pasted plane is that cell of the grid. */
  lemma StackedCell<T>(img: seq<seq<T>>, bs: nat, g: seq<seq<seq<seq<T>>>>, i: nat, j: nat, r: nat, c: nat)
    requires IsRect(img) && bs > 0 && |img| >= bs && Width(img) >= bs
    requires GridShape(g, |img| / bs, Width(img) / bs, bs, bs)
    requires i < |img| / bs && j < Width(img) / bs && r < bs && c < bs
    ensures IsGrid(g) && |Stacked(g)| <= |img| && Width(Stacked(g)) <= Width(img)
    ensures BlockAt(Overlay(img, Stacked(g)), bs, i, j)[r][c] == g[i][j][r][c]
  {
    var nh, nw := |img| / bs, Width(img) / bs;
    AtLeastOne(|img|, bs);
    AtLeastOne(Width(img), bs);
    FloorMultiple(|img|, bs);
    FloorMultiple(Width(img), bs);
    var s := Stacked(g);
    assert |s| == nh * bs && Width(s) == nw * bs;
    StackCellAt(g, i, j, r, c);
    OverlayCell(img, s, i * bs + r, j * bs + c);
  }

  /** Inside the pasted plane a cell of the overlay is the pasted cell. */
  lemma OverlayCell<T>(base: seq<seq<T>>, top: seq<seq<T>>, y: nat, x: nat)
    requires IsRect(base) && IsRect(top) && |top| <= |base| && Width(top) <= Width(base)
    requires y < |top| && x < Width(top)
    ensures Overlay(base, top)[y][x] == top[y][x]
  {
  }

  /** `CropBlocker`: an image, cut into blocks and given blocks back. */
  class CropBlocker<T> {
    const img: seq<seq<T>>

    constructor (img: seq<seq<T>>)
      requires IsRect(img)
      ensures this.img == img
    {
      this.img := img;
    }

    /** `CropBlocker.divide`: the row-major grid of full blocks of the image; it fails for a
        zero block size and for an image smaller than one block. */
    function Divide(bs: nat): (r: Option<seq<seq<seq<seq<T>>>>>)
      requires IsRect(img)
      ensures r.Some? <==> bs > 0 && |img| >= bs && Width(img) >= bs
      ensures r.Some? ==> r.value == BlockGrid(img, bs)
    {
      CropDivideIsBlockGrid(img, bs);
      CropDivide(img, bs)
    }

    /** `CropBlocker.stack`: the blocks stacked and pasted over the top-left of a copy of the
        image; the rest of the copy keeps the image's cells, and the image itself is not
        touched. A stacked plane larger than the image cannot be assigned (`None`). */
    method Stack(blocks: seq<seq<seq<seq<T>>>>) returns (image: Option<seq<seq<T>>>)
      requires IsRect(img) && IsGrid(blocks)
      ensures var s := Stacked(blocks);
        image == if |s| <= |img| && Width(s) <= Width(img) then Some(Overlay(img, s)) else None
    {
      var stacked := Stacked(blocks);
      var h, w := |stacked|, Width(stacked);
      if h > |img| || w > Width(img) {
        return None;
      }
      var copy := new T[|img|, Width(img)]((i, j) requires 0 <= i < |img| && 0 <= j < Width(img) => img[i][j]);
      forall i, j | 0 <= i < h && 0 <= j < w {
        copy[i, j] := stacked[i][j];
      }
      var rows := Rows(copy);
      SameMatrix(rows, Overlay(img, stacked), |img|, Width(img));
      return Some(rows);
    }
  }

  /** `stack(divide(bs))` is the image, shape included, for every image a block fits in: the
      stacked blocks are exactly the cropped part, pasted back where they came from. */
  lemma StackDivide<T>(img: seq<seq<T>>, bs: nat)
    requires IsRect(img) && bs > 0 && |img| >= bs && Width(img) >= bs
    ensures CropDivide(img, bs).Some? && IsGrid(CropDivide(img, bs).value)
    ensures var s := Stacked(CropDivide(img, bs).value);
      |s| <= |img| && Width(s) <= Width(img) && Overlay(img, s) == img
  {
    var h, w := |img|, Width(img);
    var c := CropImageToDivisible(img, bs).0;
    var nh, nw := h / bs, w / bs;
    FloorMultiple(h, bs);
    FloorMultiple(w, bs);
    AtLeastOne(h, bs);
    AtLeastOne(w, bs);
    CropDivideIsBlockGrid(img, bs);
    MulDivExact(bs, nh);
    MulDivExact(bs, nw);
    assert |c| == nh * bs && Width(c) == nw * bs && |c| / nh == bs && Width(c) / nw == bs;
    StackSplit(c, nh, nw);
    assert c == SubMatrix(img, 0, 0, nh * bs, nw * bs) by {
      SameMatrix(c, SubMatrix(img, 0, 0, nh * bs, nw * bs), nh * bs, nw * bs);
    }
    OverlayOwnPart(img, nh * bs, nw * bs);
  }
}
