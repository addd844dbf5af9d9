/** Shared vocabulary of the steganography model: bytes, base-4 digits, optional
    results, rectangular planes (2-D numpy arrays as sequences of rows), chunking and
    flattening of lists, and the integer-division facts the block arithmetic rests on. */
module Common {

  /** One byte of a Python `bytes` object. */
  type Byte = b: int | 0 <= b < 256

  /** One base-4 digit as produced by `byte_to_dec_array` and by block extraction. */
  type Digit = d: int | 0 <= d < 4

  datatype Option<T> = None | Some(value: T)

  /** `p` is an `h` by `w` array: `h` rows of exactly `w` entries. */
  ghost predicate IsMatrix<T>(p: seq<seq<T>>, h: nat, w: nat) {
    |p| == h && forall i :: 0 <= i < h ==> |p[i]| == w
  }

  /** `shape[1]` of a 2-D array (the model keeps no width for an array without rows). */
  function Width<T>(p: seq<seq<T>>): nat {
    if |p| == 0 then 0 else |p[0]|
  }

  /** Every row has the width of the first one, as for every numpy 2-D array. */
  ghost predicate IsRect<T>(p: seq<seq<T>>) {
    IsMatrix(p, |p|, Width(p))
  }

  /** The slice `p[r0:r0+nr, c0:c0+nc]`. */
  function SubMatrix<T>(p: seq<seq<T>>, r0: nat, c0: nat, nr: nat, nc: nat): (q: seq<seq<T>>)
    requires r0 + nr <= |p|
    requires forall i :: r0 <= i < r0 + nr ==> c0 + nc <= |p[i]|
    ensures IsMatrix(q, nr, nc)
    ensures forall i, j :: 0 <= i < nr && 0 <= j < nc ==> q[i][j] == p[r0 + i][c0 + j]
  {
    seq(nr, i requires 0 <= i < nr => p[r0 + i][c0 .. c0 + nc])
  }

  /** The block in block-row `i` and block-column `j`: `img[i*bs:(i+1)*bs, j*bs:(j+1)*bs]`. */
  function BlockAt<T>(img: seq<seq<T>>, bs: nat, i: nat, j: nat): (b: seq<seq<T>>)
    requires IsRect(img) && bs > 0 && i < |img| / bs && j < Width(img) / bs
    ensures 0 <= i * bs && i * bs + bs <= |img| && 0 <= j * bs && j * bs + bs <= Width(img)
    ensures IsMatrix(b, bs, bs)
    ensures forall r, c :: 0 <= r < bs && 0 <= c < bs ==> b[r][c] == img[i * bs + r][j * bs + c]
  {
    BlockInside(i, |img| / bs, bs);
    BlockInside(j, Width(img) / bs, bs);
    FloorMultiple(|img|, bs);
    FloorMultiple(Width(img), bs);
    SubMatrix(img, i * bs, j * bs, bs, bs)
  }

  /** All full `bs x bs` blocks of a plane as `h // bs` rows of `w // bs` blocks; the rows and
      columns past the last full block belong to no block. */
  function BlockGrid<T>(img: seq<seq<T>>, bs: nat): (g: seq<seq<seq<seq<T>>>>)
    requires IsRect(img) && bs > 0
    ensures IsMatrix(g, |img| / bs, Width(img) / bs)
    ensures forall i, j :: 0 <= i < |g| && 0 <= j < |g[i]| ==> IsMatrix(g[i][j], bs, bs)
    ensures forall i, j :: 0 <= i < |img| / bs && 0 <= j < Width(img) / bs ==> g[i][j] == BlockAt(img, bs, i, j)
  {
    seq(|img| / bs, i requires 0 <= i < |img| / bs =>
      seq(Width(img) / bs, j requires 0 <= j < Width(img) / bs => BlockAt(img, bs, i, j)))
  }

  /** `b"".join(ss)` / `itertools.chain.from_iterable(ss)`: the pieces one after another. */
  function Concat<T>(ss: seq<seq<T>>): seq<T> {
    if ss == [] then [] else ss[0] + Concat(ss[1..])
  }

  lemma {:induction false} ConcatAppend<T>(a: seq<seq<T>>, b: seq<seq<T>>)
    ensures Concat(a + b) == Concat(a) + Concat(b)
  {
    if a == [] {
      assert a + b == b;
    } else {
      assert (a + b)[1..] == a[1..] + b;
      ConcatAppend(a[1..], b);
    }
  }

  /** If every piece has length `k`, the flattening has length `k * |ss|`. */
  lemma {:induction false} ConcatUniformLength<T>(ss: seq<seq<T>>, k: nat)
    requires forall i :: 0 <= i < |ss| ==> |ss[i]| == k
    ensures |Concat(ss)| == k * |ss|
  {
    if ss != [] {
      ConcatUniformLength(ss[1..], k);
    }
  }

  /** If no piece is longer than `k`, the flattening has at most `k * |ss|` items. */
  lemma {:induction false} ConcatBoundedLength<T>(ss: seq<seq<T>>, k: nat)
    requires forall i :: 0 <= i < |ss| ==> |ss[i]| <= k
    ensures |Concat(ss)| <= k * |ss|
  {
    if ss != [] {
      ConcatBoundedLength(ss[1..], k);
    }
  }

  /** ... and its entry `i*k + j` is entry `j` of piece `i`. */
  lemma {:induction false} ConcatUniformAt<T>(ss: seq<seq<T>>, k: nat, i: nat, j: nat)
    requires forall i :: 0 <= i < |ss| ==> |ss[i]| == k
    requires i < |ss| && j < k
    ensures |Concat(ss)| == k * |ss| && i * k + j < |Concat(ss)|
    ensures Concat(ss)[i * k + j] == ss[i][j]
  {
    ConcatUniformLength(ss, k);
    MulMono(i + 1, |ss|, k);
    if i > 0 {
      ConcatUniformAt(ss[1..], k, i - 1, j);
      assert (i - 1) * k + j + k == i * k + j;
    }
  }

  /** Row-major numbering of an `n x m` grid flattened row after row: entry `i * m + j` is
      `g[i][j]` ... */
  lemma RowMajorAt<E>(g: seq<seq<E>>, n: nat, m: nat, i: nat, j: nat)
    requires IsMatrix(g, n, m) && i < n && j < m
    ensures i * m + j < n * m && |Concat(g)| == n * m && Concat(g)[i * m + j] == g[i][j]
  {
    ConcatUniformAt(g, m, i, j);
  }

  /** ... so entry `k` is `g[k / m][k % m]`. */
  lemma RowMajor<E>(g: seq<seq<E>>, n: nat, m: nat)
    requires IsMatrix(g, n, m)
    ensures |Concat(g)| == n * m
    ensures forall k :: 0 <= k < n * m ==> k / m < n && k % m < m && Concat(g)[k] == g[k / m][k % m]
  {
    ConcatUniformLength(g, m);
    forall k | 0 <= k < n * m
      ensures k / m < n && k % m < m && Concat(g)[k] == g[k / m][k % m]
    {
      DivModBounds(k, m, n);
      ConcatUniformAt(g, m, k / m, k % m);
    }
  }

  /** Flattening rows of `bs x bs` blocks gives `bs x bs` blocks only. */
  lemma {:induction false} ConcatSquare<T>(g: seq<seq<seq<seq<T>>>>, bs: nat)
    requires forall i, j :: 0 <= i < |g| && 0 <= j < |g[i]| ==> IsMatrix(g[i][j], bs, bs)
    ensures forall k :: 0 <= k < |Concat(g)| ==> IsMatrix(Concat(g)[k], bs, bs)
  {
    if g != [] {
      ConcatSquare(g[1..], bs);
      assert forall k :: 0 <= k < |g[0]| ==> IsMatrix(g[0][k], bs, bs);
    }
  }

  /** `[s[x:x + size] for x in range(0, len(s), size)]`: consecutive slices of `size`
      entries, the last one possibly shorter, which put back together give `s`. */
  function Chunks<T>(s: seq<T>, size: nat): (r: seq<seq<T>>)
    requires size > 0
    ensures Concat(r) == s
    ensures forall i :: 0 <= i < |r| ==> 0 < |r[i]| <= size
    ensures forall i :: 0 <= i && i + 1 < |r| ==> |r[i]| == size
    ensures |r| * size < |s| + size && |s| <= |r| * size
    decreases |s|
  {
    if s == [] then []
    else if |s| <= size then [s]
    else
      var rest := Chunks(s[size..], size);
      assert (|rest| + 1) * size == |rest| * size + size;
      [s[..size]] + rest
  }

  /** When `size` divides the length there are `n` chunks and every one is full. */
  lemma {:induction false} ChunksExact<T>(s: seq<T>, size: nat, n: nat)
    requires size > 0 && |s| == n * size
    ensures |Chunks(s, size)| == n
    ensures forall i :: 0 <= i < n ==> |Chunks(s, size)[i]| == size
  {
    if n > 1 {
      assert n * size == (n - 1) * size + size;
      MulMono(1, n - 1, size);
      assert |s| > size;
      ChunksExact(s[size..], size, n - 1);
    } else if n == 1 {
      assert |s| == size;
    } else {
      assert |s| == 0;
    }
  }

  /** Cutting a flattening of equal pieces of `size` entries gives the pieces back. */
  lemma {:induction false} ChunksOfConcat<T>(ss: seq<seq<T>>, size: nat)
    requires size > 0 && forall i :: 0 <= i < |ss| ==> |ss[i]| == size
    ensures Chunks(Concat(ss), size) == ss
  {
    if ss != [] {
      ChunksOfConcat(ss[1..], size);
      var t := Concat(ss[1..]);
      assert Concat(ss) == ss[0] + t;
      assert (ss[0] + t)[..size] == ss[0];
      assert (ss[0] + t)[size..] == t;
      if t == [] {
        assert ss[1..] == [];
      }
    }
  }

  /** `2 ** n`. */
  function Pow2(n: nat): (r: nat)
    ensures r >= 1
  {
    if n == 0 then 1 else 2 * Pow2(n - 1)
  }

  /** A larger exponent never gives a smaller power. */
  lemma {:induction false} Pow2Mono(a: nat, b: nat)
    requires a <= b
    ensures Pow2(a) <= Pow2(b)
  {
    if a < b {
      Pow2Mono(a, b - 1);
    }
  }

  /** `x` repeated `n` times, as `[x] * n` or `b"\x00" * n`. */
  function Repeat<T>(x: T, n: nat): (r: seq<T>)
    ensures |r| == n && forall i :: 0 <= i < n ==> r[i] == x
  {
    seq(n, _ => x)
  }

  /** `s * n` on a list or bytes object: `n` copies of `s` one after another. */
  function Tile<T>(s: seq<T>, n: nat): (r: seq<T>)
    ensures |r| == n * |s|
  {
    if n == 0 then [] else s + Tile(s, n - 1)
  }

  /** Entry `i` of a tiling is entry `i % |s|` of the tile. */
  lemma {:induction false} TileAt<T>(s: seq<T>, n: nat, i: nat)
    requires i < n * |s|
    ensures Tile(s, n)[i] == s[i % |s|]
  {
    if i >= |s| {
      TileAt(s, n - 1, i - |s|);
      ModShift(i - |s|, |s|);
    } else {
      assert i % |s| == i;
    }
  }

  lemma ModShift(x: nat, m: nat)
    requires m > 0
    ensures (x + m) % m == x % m && (x + m) / m == x / m + 1
  {
    DivModUnique(x + m, m, x / m + 1, x % m);
  }

  /** `i * d + k` with `0 <= k < d` has quotient `i` and remainder `k`. */
  lemma DivModUnique(x: int, d: int, i: int, k: int)
    requires d > 0 && 0 <= k < d && x == i * d + k
    ensures x / d == i && x % d == k
  {
    var q, r := x / d, x % d;
    assert x == q * d + r;
    if q > i {
      assert q * d >= (i + 1) * d by { MulMono(i + 1, q, d); }
    } else if q < i {
      assert i * d >= (q + 1) * d by { MulMono(q + 1, i, d); }
    }
  }

  /** A multiple of `d` leaves no remainder. */
  lemma MulDivExact(q: int, d: int)
    requires d > 0
    ensures (q * d) / d == q && (q * d) % d == 0
  {
    DivModUnique(q * d, d, q, 0);
  }

  /** Rounding down to a multiple of `d` loses less than `d`. */
  lemma FloorMultiple(x: nat, d: nat)
    requires d > 0
    ensures (x / d) * d <= x < (x / d) * d + d && x - (x / d) * d == x % d
  {
  }

  /** A positive multiple of `d` is at least `d`, and taking `d` away leaves a multiple. */
  lemma MultipleStep(x: nat, d: nat)
    requires d > 0 && x > 0 && x % d == 0
    ensures x >= d && (x - d) % d == 0
  {
    var q := x / d;
    assert x == q * d;
    if q == 0 {
      assert false;
    }
    MulDivExact(q - 1, d);
    assert (q - 1) * d == x - d;
  }

  /** `d <= x` fits `d` at least once into `x`. */
  lemma AtLeastOne(x: nat, d: nat)
    requires 0 < d <= x
    ensures x / d >= 1
  {
    FloorMultiple(x, d);
  }

  /** Floor division is monotone in the dividend ... */
  lemma DivMono(a: nat, b: nat, d: nat)
    requires d > 0 && a <= b
    ensures a / d <= b / d
  {
    FloorMultiple(a, d);
    FloorMultiple(b, d);
    if a / d > b / d {
      MulMono(b / d + 1, a / d, d);
    }
  }

  /** ... and antitone in the divisor. */
  lemma DivAntiMono(x: nat, d1: nat, d2: nat)
    requires 0 < d1 <= d2
    ensures x / d2 <= x / d1
  {
    FloorMultiple(x, d1);
    FloorMultiple(x, d2);
    MulMono(d1, d2, x / d2);
    if x / d2 > x / d1 {
      MulMono(x / d1 + 1, x / d2, d1);
    }
  }

  /** Block `i` of `n` blocks of `d` lies inside `n * d`. */
  lemma BlockInside(i: nat, n: nat, d: nat)
    requires i < n
    ensures 0 <= i * d && i * d + d <= n * d
  {
    MulMono(0, i, d);
    MulMono(i + 1, n, d);
    assert (i + 1) * d == i * d + d;
  }

  lemma MulMono(a: int, b: int, d: int)
    requires a <= b && d >= 0
    ensures a * d <= b * d
  {
    assert b * d - a * d == (b - a) * d;
  }

  /** The row or column `x` of a plane lies in block `x / d` at offset `x % d`. */
  lemma DivModBounds(x: nat, d: nat, n: nat)
    requires d > 0 && x < n * d
    ensures x / d < n && (x / d) * d + x % d == x
  {
    if x / d >= n {
      MulMono(n, x / d, d);
    }
  }

  /** The cells of a 2-D array, row by row. */
  function Contents<T>(a: array2<T>): (b: seq<seq<T>>)
    reads a
    ensures IsMatrix(b, a.Length0, a.Length1)
    ensures forall i, j :: 0 <= i < a.Length0 && 0 <= j < a.Length1 ==> b[i][j] == a[i, j]
  {
    seq(a.Length0, i requires 0 <= i < a.Length0 reads a =>
      seq(a.Length1, j requires 0 <= j < a.Length1 reads a => a[i, j]))
  }

  /** How many of `n` places get an item of `gs`. */
  function Taken<D>(n: nat, gs: seq<D>): (t: nat)
    ensures t <= n && t <= |gs| && (t == n || t == |gs|)
  {
    if n < |gs| then n else |gs|
  }

  /** What an iterator still holds after a band encoder drew one item per block of the grid
      `g`, row by row. */
  function LeftOver<B, D>(g: seq<seq<B>>, gs: seq<D>): seq<D>
  {
    if g == [] then gs else LeftOver(g[1..], gs[Taken(|g[0]|, gs)..])
  }

  /** Drawing for `a` blocks and then for `b` more draws what drawing for `a + b` blocks
      draws, and leaves the same items. */
  lemma TakenSuffix<D>(a: nat, b: nat, gs: seq<D>)
    ensures Taken(a, gs) + Taken(b, gs[Taken(a, gs)..]) == Taken(a + b, gs)
    ensures gs[Taken(a, gs)..][Taken(b, gs[Taken(a, gs)..])..] == gs[Taken(a + b, gs)..]
  {
  }

  /** An exhausted iterator stays exhausted. */
  lemma {:induction false} LeftOverNone<B, D>(g: seq<seq<B>>, gs: seq<D>)
    requires gs == []
    ensures LeftOver(g, gs) == []
  {
    if g != [] {
      LeftOverNone(g[1..], gs);
    }
  }

  /** Writing entry `j` of a list, seen from both sides of `j`. */
  lemma UpdateAt<T>(s: seq<T>, j: nat, x: T)
    requires j < |s|
    ensures s[j := x][..j + 1] == s[..j] + [x] && s[j := x][j + 1..] == s[j + 1..]
  {
  }

  lemma DropOne<T>(s: seq<T>, j: nat)
    requires j < |s|
    ensures s[j..][1..] == s[j + 1..]
  {
  }

  /** Two `h x w` matrices with the same cells are equal. */
  lemma SameMatrix<T>(a: seq<seq<T>>, b: seq<seq<T>>, h: nat, w: nat)
    requires IsMatrix(a, h, w) && IsMatrix(b, h, w)
    requires forall r, c :: 0 <= r < h && 0 <= c < w ==> a[r][c] == b[r][c]
    ensures a == b
  {
    forall r | 0 <= r < h
      ensures a[r] == b[r]
    {
    }
  }

  /** A slice of a suffix is a slice of the whole, shifted. */
  lemma SliceOfSuffix<T>(s: seq<T>, d: nat, lo: nat, hi: nat)
    requires d + hi <= |s| && lo <= hi
    ensures s[d..][lo..hi] == s[d + lo..d + hi]
  {
  }

  /** An encoder that drew one item for the first block draws one fewer for the rest. */
  lemma TakenStep<D>(n: nat, gs: seq<D>)
    requires n > 0 && gs != []
    ensures Taken(n, gs) >= 1 && Taken(n - 1, gs[1..]) == Taken(n, gs) - 1
  {
  }

  /** The first `n` entries are the first entry and `n - 1` of the rest; what follows them is
      what follows `n - 1` entries of the rest. */
  lemma FirstSplit<T>(s: seq<T>, n: nat)
    requires 1 <= n <= |s|
    ensures s[..n] == [s[0]] + s[1..][..n - 1]
    ensures s[1..][n - 1..] == s[n..]
  {
  }

  lemma Regroup<T>(a: seq<T>, b: seq<T>, c: seq<T>)
    ensures a + (b + c) == (a + b) + c
  {
  }

  lemma SplitJoin<T>(s: seq<T>, k: nat)
    requires k <= |s|
    ensures s[..k] + s[k..] == s
  {
  }

  /** A Python list object that a callee may extend in place, so that the caller sees the
      new entries. */
  class SharedList<T> {
    var items: seq<T>

    constructor (items0: seq<T>)
      ensures items == items0
    {
      items := items0;
    }
  }

  /** A Python iterator over a list, as the band encoders draw from it. */
  class MessageIterator<D> {
    var rest: seq<D>

    constructor (groups: seq<D>)
      ensures rest == groups
    {
      rest := groups;
    }

    /** `next(iterator)`: the next item, or `None` where Python raises `StopIteration`. */
    method Next() returns (next: Option<D>)
      modifies this
      ensures old(rest) == [] ==> next == None && rest == []
      ensures old(rest) != [] ==> next == Some(old(rest)[0]) && rest == old(rest)[1..]
    {
      if rest == [] {
        return None;
      }
      next := Some(rest[0]);
      rest := rest[1..];
    }
  }
}
