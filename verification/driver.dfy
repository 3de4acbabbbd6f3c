/**
 The driver of the memory mountain with its timing and printing taken out:
 `run` turns a working-set size into an element count and calls the kernel,
 `main` fills the buffer with ones and runs every cell of the sweep in
 row-major order.  What is left to state is which kernel calls are made, on
 which arguments, and what each returns.
 */
module Driver {
  import opened Strided
  import opened Kernel
  import opened Sweep

  /** `run(size, stride, Mhz)` without the timing: `elems = size / sizeof(int)`,
      one warm-up call of the kernel, whose result is discarded, and one
      measured call, which reads the walk and returns the strided sum. */
  method Run(data: array<int>, size: nat, stride: nat) returns (sum: int, trace: seq<nat>)
    requires stride > 0 && ElemsOf(size) <= data.Length
    ensures trace == Walk(0, ElemsOf(size), stride)
    ensures sum == StridedSum(data[..], ElemsOf(size), stride)
    ensures (forall k :: 0 <= k < data.Length ==> data[k] == 1) ==> sum == CeilDiv(ElemsOf(size), stride)
    ensures ElemsOf(size) <= MaxElems && (forall k :: 0 <= k < data.Length ==> IntMin <= data[k] <= IntMax) ==>
              LongMin <= sum <= LongMax
  {
    var elems := ElemsOf(size);
    var warmSum, warmTrace, warmRounds := Test(data, elems, stride);
    var rounds;
    sum, trace, rounds := Test(data, elems, stride);
    if forall k :: 0 <= k < data.Length ==> data[k] == 1 {
      OnesCount(data[..], elems, stride);
    }
    if elems <= MaxElems && forall k :: 0 <= k < data.Length ==> IntMin <= data[k] <= IntMax {
      KernelSumFitsInLong(data[..], elems, stride);
    }
  }

  /** `sums` holds, for the first `|sums|` cells of `g`, the count of
      positions each cell's walk visits. */
  predicate Counted(sums: seq<int>, g: seq<Cell>)
  {
    && |sums| <= |g|
    && forall k :: 0 <= k < |sums| ==> g[k].stride > 0 && sums[k] == CeilDiv(g[k].elems, g[k].stride)
  }

  lemma CountedSnoc(sums: seq<int>, g: seq<Cell>, x: int)
    requires Counted(sums, g) && |sums| < |g| && g[|sums|].stride > 0
    requires x == CeilDiv(g[|sums|].elems, g[|sums|].stride)
    ensures Counted(sums + [x], g)
  {
  }

  /** The nested sweep loops of `main`, for any configuration whose element
      counts all fit the buffer (`ReferenceCells` shows the program's own one
      does), on the buffer `init_data` leaves: all ones.  One kernel sum per cell, in the
      order of `Grid`, and each equals the number of positions that cell's
      walk visits, `ceil(elems / stride)`. */
  method Mountain(data: array<int>, cfg: Config) returns (sums: seq<int>)
    requires cfg.Valid()
    requires forall k :: 0 <= k < |Grid(cfg)| ==> Grid(cfg)[k].elems <= data.Length
    requires forall k :: 0 <= k < data.Length ==> data[k] == 1
    ensures |sums| == |Grid(cfg)|
    ensures forall k :: 0 <= k < |sums| ==>
              (Grid(cfg)[k].stride > 0 && sums[k] == CeilDiv(Grid(cfg)[k].elems, Grid(cfg)[k].stride))
  {
    var rows, cols := Rows(cfg), Columns(cfg);
    CellsLength(rows, cols);
    sums := [];
    var size: nat := cfg.maxBytes;
    var r: nat := 0;
    while size >= cfg.minBytes
      invariant r <= |rows|
      invariant r < |rows| ==> rows[r] == size
      invariant r == |rows| ==> size < cfg.minBytes
      invariant |sums| == Slot(r, 0, |cols|)
      invariant Counted(sums, Grid(cfg))
      decreases size
    {
      sums := MountainRow(data, cfg, r, sums);
      r := r + 1;
      size := size / 2;
    }
    assert r == |rows|;
  }

  /** One pass of the inner loop of `main`: row `r`, strides ascending, one
      kernel sum appended per column. */
  method MountainRow(data: array<int>, cfg: Config, r: nat, sums: seq<int>) returns (sums': seq<int>)
    requires cfg.Valid()
    requires forall k :: 0 <= k < |Grid(cfg)| ==> Grid(cfg)[k].elems <= data.Length
    requires forall k :: 0 <= k < data.Length ==> data[k] == 1
    requires r < |Rows(cfg)|
    requires |sums| == Slot(r, 0, |Columns(cfg)|) && Counted(sums, Grid(cfg))
    ensures |sums'| == Slot(r + 1, 0, |Columns(cfg)|) && Counted(sums', Grid(cfg))
  {
    var size, cols, g := Rows(cfg)[r], Columns(cfg), Grid(cfg);
    var width := |cols|;
    sums' := sums;
    var stride: nat := 1;
    var c: nat := 0;
    while stride <= cfg.maxStride
      invariant c <= width && stride > 0
      invariant c < width ==> cols[c] == stride
      invariant c == width ==> stride > cfg.maxStride
      invariant |sums'| == Slot(r, c, width)
      invariant Counted(sums', g)
      decreases width - c
    {
      assert (c + 1) * cfg.strideStride == c * cfg.strideStride + cfg.strideStride;
      CellAt(Rows(cfg), cols, r, c);
      assert g[Slot(r, c, width)].elems <= data.Length;
      var sum, trace := Run(data, size, stride);
      CountedSnoc(sums', g, sum);
      sums' := sums' + [sum];
      c := c + 1;
      stride := stride + cfg.strideStride;
    }
    assert c == width;
    assert (r + 1) * width == r * width + width;
  }

  /** Range of the C types involved: `int` buffer elements, `long` accumulators. */
  const IntMin: int := -0x8000_0000
  const IntMax: int := 0x7fff_ffff
  const LongMin: int := -0x8000_0000_0000_0000
  const LongMax: int := 0x7fff_ffff_ffff_ffff

  /** Any sum of at most `MAXELEMS` (2^25) 32-bit `int` values, at any
      positions, has magnitude at most 2^56 and so lies in the `long` range. */
  lemma SumFitsInLong(d: seq<int>, idx: seq<nat>)
    requires |idx| <= MaxElems
    requires forall k :: 0 <= k < |idx| ==> idx[k] < |d| && IntMin <= d[idx[k]] <= IntMax
    ensures LongMin <= SumAt(d, idx) <= LongMax
  {
    var b: nat := 0x8000_0000;
    SumAtBound(d, idx, b);
    MulMonotone(|idx|, MaxElems, b);
  }

  /** The kernel's result fits a `long`: over at most `MAXELEMS` elements of
      32-bit `int` values, the strided sum (the final total of the
      accumulators) lies in the `long` range. */
  lemma KernelSumFitsInLong(d: seq<int>, elems: nat, stride: nat)
    requires stride > 0 && elems <= |d| && elems <= MaxElems
    requires forall k :: 0 <= k < elems ==> IntMin <= d[k] <= IntMax
    ensures LongMin <= StridedSum(d, elems, stride) <= LongMax
  {
    var walk := Walk(0, elems, stride);
    WalkAtMost(elems, stride);
    WalkElements(0, elems, stride);
    assert forall k :: 0 <= k < |walk| ==> walk[k] < |d| && IntMin <= d[walk[k]] <= IntMax;
    SumFitsInLong(d, walk);
  }
}
