/** The modular base-4 perimeter rule of stego/coder/mdle_coder.py (duplicated verbatim as
    stego/codec.py): a 3 x 3 block of integer coefficients carries eight base-4 digits, one
    per perimeter coefficient `p`, read back as `(p + centre) mod 4`; embedding moves each
    perimeter coefficient by at most two so that this reading gives the digit. A band is cut
    into 3 x 3 blocks that take one group of eight digits each, in row-major order, until
    the message runs out. */
module PerimeterCodec {
  import opened Common
  import opened CropBlocking

  /** A block of (integer) wavelet coefficients. */
  type Block = seq<seq<int>>

  /** `coeffs_order`: the perimeter of a 3 x 3 block, clockwise from the top-left corner. */
  const CoeffsOrder: seq<(nat, nat)> := [(0, 0), (0, 1), (0, 2), (1, 2), (2, 2), (2, 1), (2, 0), (1, 0)]

  /** Two cells one horizontal or vertical step apart. */
  predicate Adjacent(a: (nat, nat), b: (nat, nat)) {
    (a.0 == b.0 && (a.1 + 1 == b.1 || b.1 + 1 == a.1)) ||
    (a.1 == b.1 && (a.0 + 1 == b.0 || b.0 + 1 == a.0))
  }

  /** Position of a perimeter cell in `CoeffsOrder`. */
  function Slot(i: nat, j: nat): (t: nat)
    requires i < 3 && j < 3 && !(i == 1 && j == 1)
    ensures t < 8 && CoeffsOrder[t] == (i, j)
  {
    if i == 0 then j else if j == 2 then 2 + i else if i == 2 then 6 - j else 7
  }

  /** `CoeffsOrder` names each of the eight cells around the centre exactly once, starts at
      the top-left corner going right, and walks around the ring one step at a time, so it
      is a clockwise tour of the perimeter. */
  lemma CoeffsOrderPerimeter()
    ensures |CoeffsOrder| == 8 && CoeffsOrder[0] == (0, 0) && CoeffsOrder[1] == (0, 1)
    ensures forall t :: 0 <= t < 8 ==> CoeffsOrder[t].0 < 3 && CoeffsOrder[t].1 < 3 && CoeffsOrder[t] != (1, 1)
    ensures forall t, u :: 0 <= t < u < 8 ==> CoeffsOrder[t] != CoeffsOrder[u]
    ensures forall i: nat, j: nat :: i < 3 && j < 3 && !(i == 1 && j == 1) ==> CoeffsOrder[Slot(i, j)] == (i, j)
    ensures forall t :: 0 <= t < 7 ==> Adjacent(CoeffsOrder[t], CoeffsOrder[t + 1])
    ensures Adjacent(CoeffsOrder[7], CoeffsOrder[0])
  {
    forall t | 0 <= t < 8
      ensures CoeffsOrder[t].0 < 3 && CoeffsOrder[t].1 < 3 && CoeffsOrder[t] != (1, 1)
      ensures Slot(CoeffsOrder[t].0, CoeffsOrder[t].1) == t
    {
      SlotOfOrder(t);
    }
  }

  /** Every perimeter position is the slot of its own cell. */
  lemma SlotOfOrder(t: nat)
    requires t < 8
    ensures CoeffsOrder[t].0 < 3 && CoeffsOrder[t].1 < 3 && CoeffsOrder[t] != (1, 1)
    ensures Slot(CoeffsOrder[t].0, CoeffsOrder[t].1) == t
  {
  }

  /** `extraction_function`: the digit a perimeter coefficient carries against the centre;
      Python's `%` by 4 is never negative, like Dafny's. */
  function Extraction(p: int, c: int): (r: int)
    ensures 0 <= r < 4 && (p + c - r) % 4 == 0
  {
    (p + c) % 4
  }

  /** `lcv`: how far, modulo 4, the carried digit `f` is from the wanted digit `s`. */
  function Lcv(s: int, f: int): (r: int)
    ensures 0 <= r < 4 && (f + r - s) % 4 == 0
  {
    (s - f) % 4
  }

  /** `lcv_to_mv`: the smallest move that realises each distance modulo 4. */
  const LcvToMv: seq<int> := [0, 1, 2, -1]

  /** Moving by `LcvToMv[v]` shifts the carried digit by `v` modulo 4, and no move is larger
      than two. */
  lemma MoveRealisesLcv(v: int)
    requires 0 <= v < 4
    ensures (LcvToMv[v] - v) % 4 == 0 && -1 <= LcvToMv[v] <= 2
  {
  }

  /** `extract`: the eight digits a block carries, in perimeter order. */
  function Extract(b: Block): (d: seq<int>)
    requires IsMatrix(b, 3, 3)
    ensures |d| == 8 && forall t :: 0 <= t < 8 ==> 0 <= d[t] < 4
  {
    seq(8, t requires 0 <= t < 8 => Extraction(b[CoeffsOrder[t].0][CoeffsOrder[t].1], b[1][1]))
  }

  /** The moves `embed` computes: `mvs` for the digits `data`. */
  function Moves(b: Block, data: seq<int>): (mv: seq<int>)
    requires IsMatrix(b, 3, 3) && |data| == 8
    ensures |mv| == 8 && forall t :: 0 <= t < 8 ==> mv[t] in {0, 1, 2, -1}
  {
    var e := Extract(b);
    seq(8, t requires 0 <= t < 8 => LcvToMv[Lcv(data[t], e[t])])
  }

  /** `embed`: the block with every perimeter coefficient moved by its move. */
  function Embedded(b: Block, data: seq<int>): (r: Block)
    requires IsMatrix(b, 3, 3) && |data| == 8
    ensures IsMatrix(r, 3, 3)
  {
    var mv := Moves(b, data);
    seq(3, i requires 0 <= i < 3 =>
      seq(3, j requires 0 <= j < 3 => if i == 1 && j == 1 then b[i][j] else b[i][j] + mv[Slot(i, j)]))
  }

  /** What embedding changes: the centre is kept, and the perimeter coefficient in position
      `t` moves by `lcv_to_mv[(data[t] - (p + centre) % 4) % 4]`, one of 0, 1, 2 and -1. */
  lemma EmbedChanges(b: Block, data: seq<int>)
    requires IsMatrix(b, 3, 3) && |data| == 8
    ensures Embedded(b, data)[1][1] == b[1][1]
    ensures forall t :: 0 <= t < 8 ==>
      var (i, j) := CoeffsOrder[t];
      var mv := LcvToMv[Lcv(data[t], Extraction(b[i][j], b[1][1]))];
      mv in {0, 1, 2, -1} && Embedded(b, data)[i][j] == b[i][j] + mv
  {
    forall t | 0 <= t < 8
      ensures var (i, j) := CoeffsOrder[t];
        Embedded(b, data)[i][j] == b[i][j] + LcvToMv[Lcv(data[t], Extraction(b[i][j], b[1][1]))]
    {
      SlotOfOrder(t);
    }
  }

  /** One perimeter coefficient: after its move it carries the wanted digit modulo 4. */
  lemma RuleDigit(p: int, c: int, d: int)
    ensures Extraction(p + LcvToMv[Lcv(d, Extraction(p, c))], c) == d % 4
  {
    var v := Lcv(d, Extraction(p, c));
    MoveRealisesLcv(v);
    var q := p + LcvToMv[v];
    assert (q + c - (p + c) - v) % 4 == 0;
  }

  /** `extract(embed(block, data))` gives back every digit modulo 4, whatever the block. */
  lemma ExtractEmbed(b: Block, data: seq<int>)
    requires IsMatrix(b, 3, 3) && |data| == 8
    ensures Extract(Embedded(b, data)) == seq(8, t requires 0 <= t < 8 => data[t] % 4)
  {
    var r := Embedded(b, data);
    forall t | 0 <= t < 8
      ensures Extract(r)[t] == data[t] % 4
    {
      ExtractEmbedAt(b, data, t);
    }
  }

  /** The digit in position `t`. */
  lemma ExtractEmbedAt(b: Block, data: seq<int>, t: nat)
    requires IsMatrix(b, 3, 3) && |data| == 8 && t < 8
    ensures Extract(Embedded(b, data))[t] == data[t] % 4
  {
    EmbedChanges(b, data);
    var (i, j) := CoeffsOrder[t];
    RuleDigit(b[i][j], b[1][1], data[t]);
  }

  /** For base-4 digits the round trip is exact. */
  lemma ExtractEmbedDigits(b: Block, data: seq<int>)
    requires IsMatrix(b, 3, 3) && |data| == 8 && forall t :: 0 <= t < 8 ==> 0 <= data[t] < 4
    ensures Extract(Embedded(b, data)) == data
  {
    ExtractEmbed(b, data);
    assert forall t :: 0 <= t < 8 ==> data[t] % 4 == data[t];
  }

  /** The list comprehension of `embed`: one move per perimeter coefficient, computed from
      the block before any of them is changed. */
  method ComputeMoves(block: array2<int>, data: seq<int>) returns (mvs: seq<int>)
    requires block.Length0 == 3 && block.Length1 == 3 && |data| == 8
    ensures mvs == Moves(Contents(block), data)
  {
    ghost var b := Contents(block);
    var center := block[1, 1];
    mvs := [];
    for t := 0 to 8
      invariant mvs == Moves(b, data)[..t]
    {
      var (i, j) := CoeffsOrder[t];
      mvs := mvs + [LcvToMv[Lcv(data[t], Extraction(block[i, j], center))]];
    }
    assert mvs == Moves(b, data)[..8];
  }

  /** `embed` on a numpy block: the moves are computed from the block as it is, then added
      to the perimeter coefficients one at a time, in place. */
  method Embed(block: array2<int>, data: seq<int>)
    requires block.Length0 == 3 && block.Length1 == 3 && |data| == 8
    modifies block
    ensures Contents(block) == Embedded(old(Contents(block)), data)
  {
    ghost var b := Contents(block);
    var mvs := ComputeMoves(block, data);
    RingCells();
    for t := 0 to 8
      invariant block[1, 1] == b[1][1]
      invariant forall s :: 0 <= s < 8 ==>
        block[CoeffsOrder[s].0, CoeffsOrder[s].1] == b[CoeffsOrder[s].0][CoeffsOrder[s].1] + if s < t then mvs[s] else 0
    {
      var (i, j) := CoeffsOrder[t];
      block[i, j] := block[i, j] + mvs[t];
    }
    EmbeddedOnRing(Contents(block), b, data);
  }

  /** The ring's cells lie inside the block and are pairwise different. */
  lemma RingCells()
    ensures forall t :: 0 <= t < 8 ==> CoeffsOrder[t].0 < 3 && CoeffsOrder[t].1 < 3 && CoeffsOrder[t] != (1, 1)
    ensures forall t, u :: 0 <= t < 8 && 0 <= u < 8 && t != u ==>
      CoeffsOrder[t].0 != CoeffsOrder[u].0 || CoeffsOrder[t].1 != CoeffsOrder[u].1
  {
    CoeffsOrderPerimeter();
  }

  /** A block that keeps the centre and moves each perimeter coefficient, in `CoeffsOrder`,
      by its move is the embedded block. */
  lemma EmbeddedOnRing(c: Block, b: Block, data: seq<int>)
    requires IsMatrix(c, 3, 3) && IsMatrix(b, 3, 3) && |data| == 8 && c[1][1] == b[1][1]
    requires forall s :: 0 <= s < 8 ==>
      c[CoeffsOrder[s].0][CoeffsOrder[s].1] == b[CoeffsOrder[s].0][CoeffsOrder[s].1] + Moves(b, data)[s]
    ensures c == Embedded(b, data)
  {
    var e := Embedded(b, data);
    forall i, j | 0 <= i < 3 && 0 <= j < 3
      ensures c[i][j] == e[i][j]
    {
      if !(i == 1 && j == 1) {
        var s := Slot(i, j);
      }
    }
    SameMatrix(c, e, 3, 3);
  }

  /** `abs`. */
  function Abs(x: int): nat {
    if x < 0 then -x else x
  }

  /** `U`: how far each perimeter coefficient is from the centre. */
  function Differences(b: Block): (u: seq<nat>)
    requires IsMatrix(b, 3, 3)
    ensures |u| == 8
  {
    seq(8, t requires 0 <= t < 8 => Abs(b[1][1] - b[CoeffsOrder[t].0][CoeffsOrder[t].1]))
  }

  /** `max` of a non-empty list. */
  function MaxOf(u: seq<nat>): (m: nat)
    requires u != []
    ensures m in u && forall t :: 0 <= t < |u| ==> u[t] <= m
  {
    if |u| == 1 then u[0]
    else
      var m := MaxOf(u[1..]);
      if u[0] >= m then u[0] else m
  }

  /** How many entries of `u` reach `v`. */
  function CountReaching(u: seq<nat>, v: real): (n: nat)
    ensures n <= |u|
  {
    if u == [] then 0 else (if u[0] as real >= v then 1 else 0) + CountReaching(u[1..], v)
  }

  /** `C`: the perimeter differences that reach a quarter of the largest one (`max(U) / 4`
      is true division). */
  function EdgeCount(b: Block): nat
    requires IsMatrix(b, 3, 3)
  {
    var u := Differences(b);
    CountReaching(u, MaxOf(u) as real / 4.0)
  }

  /** `is_edge_block`: the differences are collected in one loop and counted in another. */
  method IsEdgeBlock(block: Block, threshold: int) returns (edge: bool)
    requires IsMatrix(block, 3, 3)
    ensures edge <==> EdgeCount(block) > threshold
  {
    var u := CollectDifferences(block);
    var v := MaxOf(u) as real / 4.0;
    var count := CountAtLeast(u, v);
    return count > threshold;
  }

  /** The first loop of `is_edge_block`: `U.append(abs(center - block[i, j]))` around the
      perimeter. */
  method CollectDifferences(block: Block) returns (u: seq<nat>)
    requires IsMatrix(block, 3, 3)
    ensures u == Differences(block)
  {
    u := [];
    var center := block[1][1];
    for t := 0 to 8
      invariant u == Differences(block)[..t]
    {
      var (i, j) := CoeffsOrder[t];
      DifferencesStep(block, t);
      u := u + [Abs(center - block[i][j])];
    }
    assert u == Differences(block);
  }

  /** The second loop of `is_edge_block`: `C += 1` for every difference that reaches `v`. */
  method CountAtLeast(u: seq<nat>, v: real) returns (count: nat)
    ensures count == CountReaching(u, v)
  {
    count := 0;
    for t := 0 to |u|
      invariant count + CountReaching(u[t..], v) == CountReaching(u, v)
    {
      CountReachingStep(u, v, t);
      if u[t] as real >= v {
        count := count + 1;
      }
    }
    assert u[|u|..] == [];
  }

  /** The differences collected up to position `t`, then the one at `t`. */
  lemma DifferencesStep(b: Block, t: nat)
    requires IsMatrix(b, 3, 3) && t < 8
    ensures Differences(b)[..t + 1] == Differences(b)[..t] + [Abs(b[1][1] - b[CoeffsOrder[t].0][CoeffsOrder[t].1])]
  {
  }

  /** Counting from position `t` is the entry at `t`, then the count from `t + 1`. */
  lemma CountReachingStep(u: seq<nat>, v: real, t: nat)
    requires t < |u|
    ensures CountReaching(u[t..], v) == (if u[t] as real >= v then 1 else 0) + CountReaching(u[t + 1..], v)
  {
    assert u[t..][1..] == u[t + 1..];
  }

  /** The count is all of `u` exactly when every entry reaches `v` ... */
  lemma {:induction false} CountReachingAll(u: seq<nat>, v: real)
    ensures CountReaching(u, v) == |u| <==> forall t :: 0 <= t < |u| ==> u[t] as real >= v
  {
    if u != [] {
      CountReachingAll(u[1..], v);
      assert forall t :: 1 <= t < |u| ==> u[1..][t - 1] == u[t];
    }
  }

  /** ... and at least one when some entry does. */
  lemma {:induction false} CountReachingSome(u: seq<nat>, v: real, t: nat)
    requires t < |u| && u[t] as real >= v
    ensures CountReaching(u, v) >= 1
  {
    if t > 0 {
      CountReachingSome(u[1..], v, t - 1);
    }
  }

  /** The largest difference always reaches a quarter of itself, so every block counts at
      least one, and a block whose perimeter differences are all zero (a flat block) counts
      all eight: it is an edge block for every threshold below 8, the default 4 included. */
  lemma EdgeCountBounds(b: Block)
    requires IsMatrix(b, 3, 3)
    ensures 1 <= EdgeCount(b) <= 8
    ensures EdgeCount(b) == 8 <==> forall t :: 0 <= t < 8 ==> 4 * Differences(b)[t] >= MaxOf(Differences(b))
  {
    var u := Differences(b);
    CountQuarterOf(u, MaxOf(u), MaxOf(u) as real / 4.0);
  }

  /** The same on the differences `u`, their maximum `m` and the bound `v = m / 4`. */
  lemma CountQuarterOf(u: seq<nat>, m: nat, v: real)
    requires |u| == 8 && m in u && v == m as real / 4.0
    ensures 1 <= CountReaching(u, v) <= 8
    ensures CountReaching(u, v) == 8 <==> forall t :: 0 <= t < 8 ==> 4 * u[t] >= m
  {
    var t :| 0 <= t < 8 && u[t] == m;
    QuarterReach(u[t], m);
    CountReachingSome(u, v, t);
    CountReachingAll(u, v);
    forall s | 0 <= s < 8
      ensures u[s] as real >= v <==> 4 * u[s] >= m
    {
      QuarterReach(u[s], m);
    }
  }

  /** Reaching a quarter of `m` is four times reaching `m`; `m` reaches its own quarter. */
  lemma QuarterReach(x: nat, m: nat)
    ensures x as real >= m as real / 4.0 <==> 4 * x >= m
    ensures x == m ==> x as real >= m as real / 4.0
  {
  }

  lemma FlatBlockIsEdge(b: Block)
    requires IsMatrix(b, 3, 3) && forall i, j :: 0 <= i < 3 && 0 <= j < 3 ==> b[i][j] == b[1][1]
    ensures EdgeCount(b) == 8 && EdgeCount(b) > 4
  {
    var u := Differences(b);
    forall s | 0 <= s < 8
      ensures u[s] == 0
    {
      SlotOfOrder(s);
    }
    EdgeCountBounds(b);
  }

  /** Every group holds eight digits, one per perimeter coefficient. */
  ghost predicate Groups(gs: seq<seq<int>>) {
    forall k :: 0 <= k < |gs| ==> |gs[k]| == 8
  }

  /** Every group holds eight base-4 digits. */
  ghost predicate DigitGroups(gs: seq<seq<int>>) {
    forall k :: 0 <= k < |gs| ==> |gs[k]| == 8 && forall t :: 0 <= t < 8 ==> 0 <= gs[k][t] < 4
  }

  /** A row of 3 x 3 blocks. */
  ghost predicate Blocks(row: seq<Block>) {
    forall k :: 0 <= k < |row| ==> IsMatrix(row[k], 3, 3)
  }

  /** Rows of 3 x 3 blocks. */
  ghost predicate BlockRows(g: seq<seq<Block>>) {
    forall y :: 0 <= y < |g| ==> Blocks(g[y])
  }

  /** A row of blocks after the inner loop: block `k` embeds group `k` while groups last. */
  function EmbedRow(row: seq<Block>, gs: seq<seq<int>>): (r: seq<Block>)
    requires Blocks(row) && Groups(gs)
    ensures |r| == |row| && Blocks(r)
  {
    seq(|row|, k requires 0 <= k < |row| => if k < |gs| then Embedded(row[k], gs[k]) else row[k])
  }

  /** The grid after the outer loop: each row embeds the groups the rows above left over. */
  function EmbedGrid(g: seq<seq<Block>>, gs: seq<seq<int>>): (r: seq<seq<Block>>)
    requires BlockRows(g)
    requires Groups(gs)
    ensures |r| == |g|
  {
    if g == [] then []
    else [EmbedRow(g[0], gs)] + EmbedGrid(g[1..], gs[Taken(|g[0]|, gs)..])
  }

  /** Embedding keeps every row a row of 3 x 3 blocks of the same length. */
  lemma {:induction false} EmbedGridRows(g: seq<seq<Block>>, gs: seq<seq<int>>)
    requires BlockRows(g) && Groups(gs)
    ensures BlockRows(EmbedGrid(g, gs))
    ensures forall j :: 0 <= j < |g| ==> |EmbedGrid(g, gs)[j]| == |g[j]|
  {
    if g != [] {
      EmbedGridRows(g[1..], gs[Taken(|g[0]|, gs)..]);
    }
  }

  /** `encode_band`, as a value: `None` where `divide` fails (a band smaller than one block),
      otherwise the stacked grid pasted over the band. */
  function EncodedBand(band: seq<seq<int>>, gs: seq<seq<int>>): (r: Option<seq<seq<int>>>)
    requires IsRect(band) && Groups(gs)
    ensures r.Some? <==> |band| >= 3 && Width(band) >= 3
    ensures r.Some? ==> IsMatrix(r.value, |band|, Width(band))
  {
    if |band| < 3 || Width(band) < 3 then None
    else
      var g := EmbedGrid(BlockGrid(band, 3), gs);
      EmbedGridShape(BlockGrid(band, 3), gs, |band| / 3, Width(band) / 3);
      DivideStacked(band, 3, g);
      Some(Overlay(band, Stacked(g)))
  }

  /** Embedding keeps the shape of the grid. */
  lemma {:induction false} EmbedGridShape(g: seq<seq<Block>>, gs: seq<seq<int>>, nh: nat, nw: nat)
    requires GridShape(g, nh, nw, 3, 3) && Groups(gs)
    ensures BlockRows(g)
    ensures GridShape(EmbedGrid(g, gs), nh, nw, 3, 3)
  {
    var r := EmbedGrid(g, gs);
    forall j | 0 <= j < nh
      ensures Blocks(g[j])
    {
      assert forall k :: 0 <= k < nw ==> |g[j][k]| == 3 && forall i :: 0 <= i < 3 ==> |g[j][k][i]| == 3;
    }
    EmbedGridRows(g, gs);
    assert forall i, j :: 0 <= i < nh && 0 <= j < nw ==> |r[i][j]| == 3 && forall c :: 0 <= c < 3 ==> |r[i][j][c]| == 3;
  }

  /** With no groups left nothing is embedded. */
  lemma {:induction false} EmbedGridNone(g: seq<seq<Block>>)
    requires BlockRows(g)
    ensures EmbedGrid(g, []) == g
  {
    if g != [] {
      EmbedGridNone(g[1..]);
      assert EmbedRow(g[0], []) == g[0];
    }
  }

  /** The inner loop of `encode_band` over one row of blocks: each block takes the next
      group until `next` raises `StopIteration`, which ends the row early and with it the
      band (`stopped`). */
  method EncodeRow(row: seq<Block>, it: MessageIterator<seq<int>>) returns (encoded: seq<Block>, stopped: bool)
    requires Blocks(row) && Groups(it.rest)
    modifies it
    ensures encoded == EmbedRow(row, old(it.rest))
    ensures stopped <==> |old(it.rest)| < |row|
    ensures it.rest == old(it.rest)[Taken(|row|, old(it.rest))..]
  {
    ghost var start := it.rest;
    encoded := row;
    stopped := false;
    var k := 0;
    while k < |encoded|
      invariant 0 <= k <= |row| == |encoded| && k <= |start| && it.rest == start[k..]
      invariant Blocks(encoded) && Groups(it.rest)
      invariant forall c :: 0 <= c < |row| ==> encoded[c] == if c < k then EmbedRow(row, start)[c] else row[c]
      invariant !stopped
    {
      var next := it.Next();
      if next.None? {
        stopped := true;
        break;
      }
      assert next.value == start[k];
      encoded := encoded[k := Embedded(encoded[k], next.value)];
      k := k + 1;
    }
    assert encoded == EmbedRow(row, start);
    assert stopped ==> |start| == k < |row|;
  }

  /** The outer loop of `encode_band`: the rows of blocks in turn, until a row runs out of
      groups (the `break` on `StopIteration`). */
  method EncodeGrid(grid: seq<seq<Block>>, it: MessageIterator<seq<int>>) returns (blocks: seq<seq<Block>>)
    requires BlockRows(grid)
    requires Groups(it.rest)
    modifies it
    ensures blocks == EmbedGrid(grid, old(it.rest))
    ensures it.rest == LeftOver(grid, old(it.rest))
  {
    ghost var gs := it.rest;
    blocks := grid;
    var j := 0;
    var stopped := false;
    assert grid[0..] == grid && blocks[..0] == [];
    while j < |blocks| && !stopped
      invariant j <= |blocks| == |grid|
      invariant GridLoop(grid, gs, blocks, j, it.rest, stopped)
    {
      ghost var start := it.rest;
      ghost var before := blocks;
      GridLoopRow(grid, gs, blocks, j, start);
      var row, stop := EncodeRow(blocks[j], it);
      blocks := blocks[j := row];
      stopped := stop;
      EncodeGridPass(grid, gs, before, blocks, start, it.rest, j, stopped);
      j := j + 1;
    }
    GridLoopDone(grid, gs, blocks, j, it.rest, stopped);
  }

  /** The invariant of the outer loop of `encode_band` after `j` rows: the rows not yet
      visited are untouched and will take the groups left, or a row ran out of groups and
      the grid is complete. */
  ghost predicate GridLoop(grid: seq<seq<Block>>, gs: seq<seq<int>>, blocks: seq<seq<Block>>, j: nat,
                           rest: seq<seq<int>>, stopped: bool)
  {
    BlockRows(grid) && Groups(gs) && Groups(rest) && j <= |grid| == |blocks| &&
    (!stopped ==> blocks[j..] == grid[j..] && EmbedGrid(grid, gs) == blocks[..j] + EmbedGrid(grid[j..], rest)) &&
    LeftOver(grid, gs) == LeftOver(grid[j..], rest) &&
    (stopped ==> blocks == EmbedGrid(grid, gs) && rest == [])
  }

  /** While no row has run out, the next row is the grid's own. */
  lemma GridLoopRow(grid: seq<seq<Block>>, gs: seq<seq<int>>, blocks: seq<seq<Block>>, j: nat, rest: seq<seq<int>>)
    requires GridLoop(grid, gs, blocks, j, rest, false) && j < |grid|
    ensures blocks[j] == grid[j] && Blocks(blocks[j]) && Groups(rest)
  {
    assert blocks[j] == blocks[j..][0];
  }

  /** When the loop ends, the grid is complete and the groups left are those no row took. */
  lemma GridLoopDone(grid: seq<seq<Block>>, gs: seq<seq<int>>, blocks: seq<seq<Block>>, j: nat,
                     rest: seq<seq<int>>, stopped: bool)
    requires GridLoop(grid, gs, blocks, j, rest, stopped) && (j == |grid| || stopped)
    ensures blocks == EmbedGrid(grid, gs) && rest == LeftOver(grid, gs)
  {
    if !stopped {
      assert grid[j..] == [] && blocks[..j] == blocks;
    } else {
      LeftOverNone(grid[j..], rest);
    }
  }


  /** `encode_band(band, iterator)`: the band is cut into 3 x 3 blocks, each block in
      row-major order is replaced by `embed(block, next(iterator))`, the loops stop at the
      first `StopIteration`, and the blocks are stacked back over the band. The groups not
      drawn stay in the iterator for the next band. */
  method EncodeBand(band: seq<seq<int>>, it: MessageIterator<seq<int>>) returns (encoded: Option<seq<seq<int>>>)
    requires IsRect(band) && Groups(it.rest)
    modifies it
    ensures encoded == EncodedBand(band, old(it.rest))
    ensures it.rest == if encoded.Some? then LeftOver(BlockGrid(band, 3), old(it.rest)) else old(it.rest)
  {
    var blocker := new CropBlocker(band);
    var divided := blocker.Divide(3);
    if divided.None? {
      return None;
    }
    ghost var gs := it.rest;
    EmbedGridShape(divided.value, gs, |band| / 3, Width(band) / 3);
    var blocks := EncodeGrid(divided.value, it);
    EncodeBandFits(band, divided.value, gs, blocks);
    encoded := blocker.Stack(blocks);
  }

  /** One pass of the outer loop of `encode_band` keeps the loop's invariant. */
  lemma EncodeGridPass(grid: seq<seq<Block>>, gs: seq<seq<int>>, before: seq<seq<Block>>,
                       after: seq<seq<Block>>, start: seq<seq<int>>, rest: seq<seq<int>>, j: nat, stop: bool)
    requires GridLoop(grid, gs, before, j, start, false) && j < |grid|
    requires after == before[j := EmbedRow(grid[j], start)]
    requires rest == start[Taken(|grid[j]|, start)..] && (stop <==> |start| < |grid[j]|)
    ensures GridLoop(grid, gs, after, j + 1, rest, stop)
  {
    EncodeBandStep(grid, gs, before, after, start, j);
    EmbedGridUnfold(grid, j, start);
    if stop {
      EncodeBandStop(grid, gs, after, j);
      assert rest == [];
    }
  }

  lemma EncodeBandStep(grid: seq<seq<Block>>, gs: seq<seq<int>>, before: seq<seq<Block>>,
                       after: seq<seq<Block>>, start: seq<seq<int>>, j: nat)
    requires BlockRows(grid)
    requires Groups(gs) && Groups(start) && j < |grid| == |before|
    requires before[j..] == grid[j..] && EmbedGrid(grid, gs) == before[..j] + EmbedGrid(grid[j..], start)
    requires after == before[j := EmbedRow(grid[j], start)]
    ensures after[j + 1..] == grid[j + 1..]
    ensures EmbedGrid(grid, gs) == after[..j + 1] + EmbedGrid(grid[j + 1..], start[Taken(|grid[j]|, start)..])
    ensures LeftOver(grid[j..], start) == LeftOver(grid[j + 1..], start[Taken(|grid[j]|, start)..])
  {
    var row := EmbedRow(grid[j], start);
    var rest := EmbedGrid(grid[j + 1..], start[Taken(|grid[j]|, start)..]);
    EmbedGridUnfold(grid, j, start);
    UpdateAt(before, j, row);
    DropOne(before, j);
    DropOne(grid, j);
    Regroup(before[..j], [row], rest);
  }

  /** ... and a row that ran out of groups leaves all the rows below as they were. */
  lemma EncodeBandStop(grid: seq<seq<Block>>, gs: seq<seq<int>>, after: seq<seq<Block>>, j: nat)
    requires BlockRows(grid)
    requires Groups(gs) && j < |grid| == |after|
    requires after[j + 1..] == grid[j + 1..] && EmbedGrid(grid, gs) == after[..j + 1] + EmbedGrid(grid[j + 1..], [])
    ensures after == EmbedGrid(grid, gs)
  {
    EmbedGridNone(grid[j + 1..]);
    SplitJoin(after, j + 1);
  }

  /** The rows from `k` on: row `k` first, then the rest with the groups it left. */
  lemma EmbedGridUnfold(g: seq<seq<Block>>, k: nat, gs: seq<seq<int>>)
    requires BlockRows(g)
    requires Groups(gs) && k < |g|
    ensures EmbedGrid(g[k..], gs) == [EmbedRow(g[k], gs)] + EmbedGrid(g[k + 1..], gs[Taken(|g[k]|, gs)..])
    ensures LeftOver(g[k..], gs) == LeftOver(g[k + 1..], gs[Taken(|g[k]|, gs)..])
  {
    assert g[k..][0] == g[k] && g[k..][1..] == g[k + 1..];
  }

  lemma EncodeBandFits(band: seq<seq<int>>, grid: seq<seq<Block>>, gs: seq<seq<int>>, blocks: seq<seq<Block>>)
    requires IsRect(band) && |band| >= 3 && Width(band) >= 3 && Groups(gs)
    requires grid == BlockGrid(band, 3) && blocks == EmbedGrid(grid, gs)
    ensures IsGrid(blocks)
    ensures var s := Stacked(blocks); |s| <= |band| && Width(s) <= Width(band)
    ensures EncodedBand(band, gs) == Some(Overlay(band, Stacked(blocks)))
  {
    EmbedGridShape(grid, gs, |band| / 3, Width(band) / 3);
    DivideStacked(band, 3, blocks);
  }

  /** The digits of a row of blocks, block after block. */
  function DecodeRow(row: seq<Block>): (d: seq<int>)
    requires Blocks(row)
    ensures |d| == 8 * |row|
  {
    if row == [] then [] else Extract(row[0]) + DecodeRow(row[1..])
  }

  /** The digits of a grid, row after row. */
  function DecodeGrid(g: seq<seq<Block>>): seq<int>
    requires BlockRows(g)
  {
    if g == [] then [] else DecodeRow(g[0]) + DecodeGrid(g[1..])
  }

  /** `decode_band`, as a value; `None` where `divide` fails. */
  function DecodedBand(band: seq<seq<int>>): (r: Option<seq<int>>)
    requires IsRect(band)
    ensures r.Some? <==> |band| >= 3 && Width(band) >= 3
  {
    if |band| < 3 || Width(band) < 3 then None
    else
      GridBlockRows(BlockGrid(band, 3), |band| / 3, Width(band) / 3);
      Some(DecodeGrid(BlockGrid(band, 3)))
  }

  /** The inner loop of `decode_band`: the digits of a row, block by block. */
  method DecodeRowLoop(row: seq<Block>) returns (digits: seq<int>)
    requires Blocks(row)
    ensures digits == DecodeRow(row)
  {
    digits := [];
    for k := 0 to |row|
      invariant digits + DecodeRow(row[k..]) == DecodeRow(row)
    {
      assert row[k..][0] == row[k] && row[k..][1..] == row[k + 1..];
      digits := digits + Extract(row[k]);
    }
    assert row[|row|..] == [];
  }

  /** `decode_band`: the digits of every block, extended block by block in row-major order. */
  method DecodeBand(band: seq<seq<int>>) returns (data: Option<seq<int>>)
    requires IsRect(band)
    ensures data == DecodedBand(band)
  {
    var blocker := new CropBlocker(band);
    var divided := blocker.Divide(3);
    if divided.None? {
      return None;
    }
    var blocks := divided.value;
    GridBlockRows(blocks, |band| / 3, Width(band) / 3);
    var encoded: seq<int> := [];
    for j := 0 to |blocks|
      invariant BlockRows(blocks[j..])
      invariant encoded + DecodeGrid(blocks[j..]) == DecodeGrid(blocks)
    {
      DecodeGridStep(blocks, j);
      var digits := DecodeRowLoop(blocks[j]);
      Regroup(encoded, digits, DecodeGrid(blocks[j + 1..]));
      encoded := encoded + digits;
    }
    assert blocks[|blocks|..] == [] && DecodeGrid(blocks[|blocks|..]) == [];
    assert encoded == DecodeGrid(blocks);
    assert blocks == BlockGrid(band, 3);
    return Some(encoded);
  }

  /** The digits of the rows from `j` on are those of row `j`, then those of the rest. */
  lemma DecodeGridStep(g: seq<seq<Block>>, j: nat)
    requires BlockRows(g) && j < |g|
    ensures BlockRows(g[j..]) && BlockRows(g[j + 1..])
    ensures DecodeGrid(g[j..]) == DecodeRow(g[j]) + DecodeGrid(g[j + 1..])
  {
    assert g[j..][0] == g[j] && g[j..][1..] == g[j + 1..];
  }

  /** `decode_band` returns eight digits for every block of the band. */
  lemma {:induction false} DecodeGridLength(g: seq<seq<Block>>, nh: nat, nw: nat)
    requires GridShape(g, nh, nw, 3, 3)
    ensures BlockRows(g)
    ensures |DecodeGrid(g)| == 8 * (nh * nw)
  {
    GridBlockRows(g, nh, nw);
    if nh > 0 {
      GridTail(g, nh, nw, 3, 3);
      DecodeGridLength(g[1..], nh - 1, nw);
      assert 8 * (nh * nw) == 8 * nw + 8 * ((nh - 1) * nw);
    }
  }

  /** A grid of 3 x 3 blocks is made of rows of 3 x 3 blocks. */
  lemma GridBlockRows(g: seq<seq<Block>>, nh: nat, nw: nat)
    requires GridShape(g, nh, nw, 3, 3)
    ensures BlockRows(g)
  {
    forall y | 0 <= y < |g|
      ensures Blocks(g[y])
    {
      forall k | 0 <= k < |g[y]|
        ensures IsMatrix(g[y][k], 3, 3)
      {
      }
    }
  }

  lemma DecodedBandLength(band: seq<seq<int>>)
    requires IsRect(band) && |band| >= 3 && Width(band) >= 3
    ensures |DecodedBand(band).value| == 8 * ((|band| / 3) * (Width(band) / 3))
  {
    DecodeGridLength(BlockGrid(band, 3), |band| / 3, Width(band) / 3);
  }

  /** Decoding a flattened grid is decoding it row by row. */
  lemma {:induction false} DecodeRowAppend(a: seq<Block>, b: seq<Block>)
    requires Blocks(a) && Blocks(b)
    ensures Blocks(a + b) && DecodeRow(a + b) == DecodeRow(a) + DecodeRow(b)
  {
    assert forall k :: 0 <= k < |a| + |b| ==> (a + b)[k] == if k < |a| then a[k] else b[k - |a|];
    if a != [] {
      assert (a + b)[0] == a[0] && (a + b)[1..] == a[1..] + b;
      DecodeRowAppend(a[1..], b);
      assert DecodeRow(a + b) == Extract(a[0]) + DecodeRow(a[1..] + b);
    } else {
      assert a + b == b;
    }
  }

  lemma {:induction false} DecodeFlat(g: seq<seq<Block>>)
    requires BlockRows(g)
    ensures Blocks(Concat(g)) && DecodeGrid(g) == DecodeRow(Concat(g))
  {
    if g != [] {
      DecodeFlat(g[1..]);
      DecodeRowAppend(g[0], Concat(g[1..]));
    }
  }

  /** Embedding row after row is embedding the flattened grid: the groups go to the blocks
      in row-major order. */
  lemma EmbedRowAppend(a: seq<Block>, b: seq<Block>, gs: seq<seq<int>>)
    requires Blocks(a) && Blocks(b) && Groups(gs)
    ensures Blocks(a + b)
    ensures EmbedRow(a + b, gs) == EmbedRow(a, gs) + EmbedRow(b, gs[Taken(|a|, gs)..])
  {
    var n := Taken(|a|, gs);
    var l, r := EmbedRow(a + b, gs), EmbedRow(a, gs) + EmbedRow(b, gs[n..]);
    forall k | 0 <= k < |a| + |b|
      ensures l[k] == r[k]
    {
      if k >= |a| {
        assert (a + b)[k] == b[k - |a|];
        if k < |gs| {
          assert n == |a| && gs[n..][k - |a|] == gs[k];
        }
      }
    }
  }

  lemma {:induction false} EmbedFlat(g: seq<seq<Block>>, gs: seq<seq<int>>)
    requires BlockRows(g)
    requires Groups(gs)
    ensures Blocks(Concat(g))
    ensures Concat(EmbedGrid(g, gs)) == EmbedRow(Concat(g), gs)
    ensures LeftOver(g, gs) == gs[Taken(|Concat(g)|, gs)..]
  {
    DecodeFlat(g);
    if g != [] {
      var n := Taken(|g[0]|, gs);
      EmbedFlat(g[1..], gs[n..]);
      DecodeFlat(g[1..]);
      EmbedRowAppend(g[0], Concat(g[1..]), gs);
      assert |Concat(g)| == |g[0]| + |Concat(g[1..])|;
      TakenSuffix(|g[0]|, |Concat(g[1..])|, gs);
    }
  }

  /** The blocks of the flattened grid after `encode_band`'s loops: block `k` in row-major
      order embeds group `k` while groups last, every later block keeps its values, and the
      iterator keeps exactly the groups not drawn. */
  lemma EmbedGridRowMajor(g: seq<seq<Block>>, gs: seq<seq<int>>, k: nat)
    requires BlockRows(g)
    requires Groups(gs) && k < |Concat(g)|
    ensures Blocks(Concat(g)) && |Concat(EmbedGrid(g, gs))| == |Concat(g)|
    ensures Concat(EmbedGrid(g, gs))[k] == if k < |gs| then Embedded(Concat(g)[k], gs[k]) else Concat(g)[k]
    ensures LeftOver(g, gs) == gs[Taken(|Concat(g)|, gs)..]
  {
    EmbedFlat(g, gs);
  }

  /** Decoding the embedded blocks gives the drawn groups, then the digits the later blocks
      carried before. */
  lemma {:induction false} DecodeEmbedRow(row: seq<Block>, gs: seq<seq<int>>)
    requires Blocks(row) && DigitGroups(gs)
    ensures Groups(gs)
    ensures DecodeRow(EmbedRow(row, gs)) == Concat(gs[..Taken(|row|, gs)]) + DecodeRow(row[Taken(|row|, gs)..])
  {
    var n := Taken(|row|, gs);
    if n == 0 {
      assert EmbedRow(row, gs) == row;
      assert gs[..0] == [] && row[0..] == row;
    } else {
      DecodeEmbedRow(row[1..], gs[1..]);
      DecodeEmbedRowStep(row, gs);
    }
  }

  /** The first block of a row takes the first group; the rest take the rest. */
  lemma EmbedRowTail(row: seq<Block>, gs: seq<seq<int>>)
    requires Blocks(row) && Groups(gs) && row != [] && gs != []
    ensures Groups(gs[1..])
    ensures EmbedRow(row, gs)[0] == Embedded(row[0], gs[0])
    ensures EmbedRow(row, gs)[1..] == EmbedRow(row[1..], gs[1..])
  {
    assert Groups(gs[1..]);
    var e, t := EmbedRow(row, gs), EmbedRow(row[1..], gs[1..]);
    forall k | 0 <= k < |t|
      ensures e[1..][k] == t[k]
    {
    }
  }

  /** The step of the induction: the first block gives back its group. */
  lemma DecodeEmbedRowStep(row: seq<Block>, gs: seq<seq<int>>)
    requires Blocks(row) && DigitGroups(gs) && row != [] && gs != []
    requires Groups(gs) && Groups(gs[1..])
    requires DecodeRow(EmbedRow(row[1..], gs[1..]))
      == Concat(gs[1..][..Taken(|row| - 1, gs[1..])]) + DecodeRow(row[1..][Taken(|row| - 1, gs[1..])..])
    ensures DecodeRow(EmbedRow(row, gs)) == Concat(gs[..Taken(|row|, gs)]) + DecodeRow(row[Taken(|row|, gs)..])
  {
    var n := Taken(|row|, gs);
    TakenStep(|row|, gs);
    var e := EmbedRow(row, gs);
    EmbedRowTail(row, gs);
    ExtractEmbedDigits(row[0], gs[0]);
    assert DecodeRow(e) == gs[0] + DecodeRow(e[1..]);
    FirstSplit(gs, n);
    FirstSplit(row, n);
    var head, later, rest := gs[..n], gs[1..][..n - 1], DecodeRow(row[n..]);
    assert DecodeRow(e[1..]) == Concat(later) + rest;
    assert Concat(head) == gs[0] + Concat(later) by {
      assert head[0] == gs[0] && head[1..] == later;
    }
    Regroup(gs[0], Concat(later), rest);
  }

  /** `decode_band(encode_band(band, iterator))` starts with the groups drawn from the
      iterator, in order (eight digits per block, as many blocks as there were groups), and
      continues with the digits the untouched blocks carried before. */
  lemma DecodeEncodeBand(band: seq<seq<int>>, gs: seq<seq<int>>)
    requires IsRect(band) && |band| >= 3 && Width(band) >= 3 && DigitGroups(gs)
    ensures Groups(gs)
    ensures EncodedBand(band, gs).Some? && IsRect(EncodedBand(band, gs).value)
    ensures var n := Taken((|band| / 3) * (Width(band) / 3), gs);
      8 * n <= |DecodedBand(band).value| &&
      DecodedBand(EncodedBand(band, gs).value) == Some(Concat(gs[..n]) + DecodedBand(band).value[8 * n..])
  {
    var g := BlockGrid(band, 3);
    var nh, nw := |band| / 3, Width(band) / 3;
    var e := EmbedGrid(g, gs);
    EmbedGridShape(g, gs, nh, nw);
    DivideStacked(band, 3, e);
    assert BlockGrid(Overlay(band, Stacked(e)), 3) == e;
    EmbedGridShape(e, [], nh, nw);
    RowMajor(g, nh, nw);
    DecodeEmbedGrid(g, gs);
  }

  /** The same on the grid: the drawn groups, then what the untouched blocks carried. */
  lemma DecodeEmbedGrid(g: seq<seq<Block>>, gs: seq<seq<int>>)
    requires BlockRows(g) && DigitGroups(gs)
    ensures Groups(gs) && BlockRows(EmbedGrid(g, gs))
    ensures var n := Taken(|Concat(g)|, gs);
      8 * n <= |DecodeGrid(g)| &&
      DecodeGrid(EmbedGrid(g, gs)) == Concat(gs[..n]) + DecodeGrid(g)[8 * n..]
  {
    var flat := Concat(g);
    var n := Taken(|flat|, gs);
    EmbedGridRows(g, gs);
    DecodeFlat(EmbedGrid(g, gs));
    EmbedFlat(g, gs);
    DecodeEmbedRow(flat, gs);
    DecodeFlat(g);
    SplitJoin(flat, n);
    DecodeRowAppend(flat[..n], flat[n..]);
  }

  /** When the iterator is empty, `encode_band` gives the band back unchanged. */
  lemma EncodeBandNothingLeft(band: seq<seq<int>>)
    requires IsRect(band) && |band| >= 3 && Width(band) >= 3
    ensures EncodedBand(band, []) == Some(band)
  {
    var g := BlockGrid(band, 3);
    EmbedGridShape(g, [], |band| / 3, Width(band) / 3);
    EmbedGridNone(g);
    StackDivide(band, 3);
    CropDivideIsBlockGrid(band, 3);
  }
}
