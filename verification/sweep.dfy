/**
 The (size, stride) sweep of the memory mountain: the working-set sizes
 (rows), the strides (columns), the cells in the order they are measured,
 the element count of each cell, and the unit each row is labelled in.
 */
module Sweep {
  import opened Strided

  /** `sizeof(int)`. */
  const IntBytes: nat := 4
  const KiB: nat := 0x400
  const MiB: nat := 0x10_0000

  /** The four constants that shape the sweep: `MINBYTES`, `MAXBYTES`,
      `MAXSTRIDE` and `STRIDESTRIDE`. */
  datatype Config = Config(minBytes: nat, maxBytes: nat, maxStride: nat, strideStride: nat)
  {
    /** The size loop halves down to a positive floor; the stride loop steps forward. */
    predicate Valid() {
      minBytes > 0 && strideStride > 0
    }
  }

  /** The sweep as the program configures it: 1 KiB .. 128 MiB, strides 1, 3, .., 31. */
  const Reference: Config := Config(0x400, 0x800_0000, 32, 2)

  /** `MAXELEMS = MAXBYTES / sizeof(int)`: the length of the buffer. */
  const MaxElems: nat := Reference.maxBytes / IntBytes

  /** One measurement of the mountain: working-set size in bytes, stride in
      elements, and the element count handed to the kernel. */
  datatype Cell = Cell(size: nat, stride: nat, elems: nat)

  /** `elems = size / sizeof(int)`: the whole ints that fit in `size` bytes. */
  function ElemsOf(size: nat): (e: nat)
    ensures e * IntBytes <= size < e * IntBytes + IntBytes
  {
    size / IntBytes
  }

  /** Row sizes: `for (size = from; size >= minBytes; size >>= 1)`.  The
      shift of a non-negative `int` is division by two. */
  function Sizes(from: nat, minBytes: nat): (r: seq<nat>)
    requires minBytes > 0
    ensures |r| == 0 <==> from < minBytes
    ensures |r| > 0 ==> r[0] == from && r[|r| - 1] / 2 < minBytes
    ensures forall k :: 0 <= k < |r| ==> minBytes <= r[k] <= from
    ensures forall k :: 0 <= k < |r| - 1 ==> r[k + 1] == r[k] / 2
    decreases from
  {
    if from < minBytes then [] else [from] + Sizes(from / 2, minBytes)
  }

  /** Column strides: `for (stride = from; stride <= maxStride; stride += step)`. */
  function Strides(from: nat, maxStride: nat, step: nat): (r: seq<nat>)
    requires step > 0
    ensures |r| == 0 <==> from > maxStride
    ensures |r| > 0 ==> r[|r| - 1] + step > maxStride
    ensures forall k :: 0 <= k < |r| ==> r[k] == from + k * step && r[k] <= maxStride
    decreases maxStride - from
  {
    if from > maxStride then [] else [from] + Strides(from + step, maxStride, step)
  }

  function Rows(cfg: Config): (r: seq<nat>)
    requires cfg.Valid()
  {
    Sizes(cfg.maxBytes, cfg.minBytes)
  }

  function Columns(cfg: Config): (r: seq<nat>)
    requires cfg.Valid()
  {
    Strides(1, cfg.maxStride, cfg.strideStride)
  }

  /** The cells of one row, strides ascending. */
  function RowCells(size: nat, strides: seq<nat>): (r: seq<Cell>)
  {
    seq(|strides|, c requires 0 <= c < |strides| => Cell(size, strides[c], ElemsOf(size)))
  }

  /** All cells, row after row: the order of the nested loops in `main`. */
  function Cells(sizes: seq<nat>, strides: seq<nat>): (r: seq<Cell>)
  {
    if |sizes| == 0 then [] else RowCells(sizes[0], strides) + Cells(sizes[1..], strides)
  }

  function Grid(cfg: Config): (r: seq<Cell>)
    requires cfg.Valid()
  {
    Cells(Rows(cfg), Columns(cfg))
  }

  function Pow2(n: nat): (p: nat)
    ensures p > 0
  {
    if n == 0 then 1 else 2 * Pow2(n - 1)
  }

  /** Halving from `m * 2^n` down to `m` gives the `n + 1` sizes `m * 2^(n-k)`. */
  lemma {:induction false} SizesHalving(m: nat, n: nat)
    requires m > 0
    ensures |Sizes(m * Pow2(n), m)| == n + 1
    ensures forall k :: 0 <= k <= n ==> Sizes(m * Pow2(n), m)[k] == m * Pow2(n - k)
  {
    if n == 0 {
      assert Sizes(m / 2, m) == [];
    } else {
      var top := m * Pow2(n);
      assert top == 2 * (m * Pow2(n - 1));
      assert top / 2 == m * Pow2(n - 1);
      SizesHalving(m, n - 1);
      assert Sizes(top, m) == [top] + Sizes(m * Pow2(n - 1), m);
      forall k | 0 < k <= n
        ensures Sizes(top, m)[k] == m * Pow2(n - k)
      {
        assert Sizes(top, m)[k] == Sizes(m * Pow2(n - 1), m)[k - 1];
        assert n - 1 - (k - 1) == n - k;
      }
    }
  }

  /** The stride loop makes `ceil((maxStride + 1 - from) / step)` columns. */
  lemma {:induction false} StridesCount(from: nat, maxStride: nat, step: nat)
    requires step > 0
    ensures |Strides(from, maxStride, step)| == if from > maxStride then 0 else CeilDiv(maxStride + 1 - from, step)
    decreases maxStride - from
  {
    if from <= maxStride {
      StridesCount(from + step, maxStride, step);
      if from + step > maxStride {
        CeilDivUnique(maxStride + 1 - from, step, 1);
      } else {
        CeilDivStep(maxStride + 1 - from, step);
      }
    }
  }

  lemma {:induction false} CellsLength(sizes: seq<nat>, strides: seq<nat>)
    ensures |Cells(sizes, strides)| == |sizes| * |strides|
  {
    if |sizes| > 0 {
      CellsLength(sizes[1..], strides);
      assert |sizes| * |strides| == |strides| + (|sizes| - 1) * |strides|;
    }
  }

  /** Position of row `r`, column `c` in a row-major grid `width` columns wide. */
  function Slot(r: nat, c: nat, width: nat): (k: nat)
  {
    r * width + c
  }

  lemma {:induction false} CellAt(sizes: seq<nat>, strides: seq<nat>, r: nat, c: nat)
    requires r < |sizes| && c < |strides|
    ensures Slot(r, c, |strides|) < |Cells(sizes, strides)|
    ensures Cells(sizes, strides)[Slot(r, c, |strides|)] == Cell(sizes[r], strides[c], ElemsOf(sizes[r]))
  {
    var w := |strides|;
    CellsLength(sizes, strides);
    MulMonotone(r, |sizes| - 1, w);
    assert (|sizes| - 1) * w == |sizes| * w - w;
    if r > 0 {
      CellAt(sizes[1..], strides, r - 1, c);
      assert Slot(r, c, w) == w + Slot(r - 1, c, w);
      assert sizes[1..][r - 1] == sizes[r];
    }
  }

  /** Cells are laid out row-major: the cell at `Slot(r, c, |strides|)` is
      (row `r`, column `c`), and there is one cell per (row, column) pair. */
  lemma CellsLayout(sizes: seq<nat>, strides: seq<nat>)
    ensures |Cells(sizes, strides)| == |sizes| * |strides|
    ensures forall r: nat, c: nat :: r < |sizes| && c < |strides| ==>
              Slot(r, c, |strides|) < |Cells(sizes, strides)| &&
              Cells(sizes, strides)[Slot(r, c, |strides|)] == Cell(sizes[r], strides[c], ElemsOf(sizes[r]))
  {
    CellsLength(sizes, strides);
    forall r: nat, c: nat | r < |sizes| && c < |strides|
      ensures Slot(r, c, |strides|) < |Cells(sizes, strides)| &&
              Cells(sizes, strides)[Slot(r, c, |strides|)] == Cell(sizes[r], strides[c], ElemsOf(sizes[r]))
    {
      CellAt(sizes, strides, r, c);
    }
  }

  /** The unit a row is labelled in: `%dm` of `size / (1 << 20)` when the size
      is strictly above 1 MiB, otherwise `%dk` of `size / 1024`. */
  datatype Unit = K | M

  datatype Label = Label(amount: nat, unit: Unit)

  function UnitBytes(u: Unit): (b: nat)
  {
    match u
    case K => KiB
    case M => MiB
  }

  /** The row label: MiB strictly above 1 MiB, KiB otherwise; the amount is
      the size rounded down to a whole number of that unit. */
  function RowLabel(size: nat): (l: Label)
    ensures l.unit == M <==> size > MiB
    ensures l.amount * UnitBytes(l.unit) <= size < (l.amount + 1) * UnitBytes(l.unit)
  {
    if size > MiB then Label(size / MiB, M) else Label(size / KiB, K)
  }

  lemma {:induction false} Pow2Add(a: nat, b: nat)
    ensures Pow2(a + b) == Pow2(a) * Pow2(b)
    decreases a
  {
    if a > 0 {
      Pow2Add(a - 1, b);
      assert Pow2(a + b) == 2 * Pow2(a - 1 + b);
    }
  }

  lemma Pow2Values()
    ensures Pow2(7) == 0x80 && Pow2(10) == KiB && Pow2(17) == 0x2_0000
  {
    assert Pow2(4) == 0x10;
    assert Pow2(8) == 0x100;
    assert Pow2(12) == 0x1000;
    assert Pow2(16) == 0x1_0000;
  }

  /** The program's rows: 18 sizes, 128 MiB halving down to 1 KiB. */
  lemma ReferenceRows(cfg: Config)
    requires cfg == Reference
    ensures |Rows(cfg)| == 18
    ensures forall r :: 0 <= r < 18 ==> Rows(cfg)[r] == KiB * Pow2(17 - r)
  {
    Pow2Values();
    assert cfg.maxBytes == cfg.minBytes * Pow2(17);
    SizesHalving(cfg.minBytes, 17);
  }

  /** The program's columns: 16 strides, 1, 3, .., 31. */
  lemma ReferenceColumns(cfg: Config)
    requires cfg == Reference
    ensures |Columns(cfg)| == 16
    ensures forall c :: 0 <= c < 16 ==> Columns(cfg)[c] == 2 * c + 1
  {
    StridesCount(1, cfg.maxStride, cfg.strideStride);
  }

  /** The program's sweep measures 18 * 16 = 288 cells, row-major. */
  lemma ReferenceShape(cfg: Config)
    requires cfg == Reference
    ensures |Rows(cfg)| == 18 && |Columns(cfg)| == 16
    ensures |Grid(cfg)| == 288
    ensures forall r, c :: 0 <= r < 18 && 0 <= c < 16 ==>
              Slot(r, c, 16) < |Grid(cfg)| &&
              Grid(cfg)[Slot(r, c, 16)] == Cell(KiB * Pow2(17 - r), 2 * c + 1, ElemsOf(KiB * Pow2(17 - r)))
  {
    ReferenceRows(cfg);
    ReferenceColumns(cfg);
    CellsLayout(Rows(cfg), Columns(cfg));
  }

  /** A cell the kernel can run over a buffer of `bufferLen` ints: a positive
      stride and a non-empty working set of whole ints that fits the buffer. */
  predicate Fits(cell: Cell, bufferLen: nat)
  {
    && cell.stride > 0
    && cell.elems * IntBytes == cell.size
    && 0 < cell.elems <= bufferLen
  }

  lemma ReferenceCell(cfg: Config, r: nat, c: nat)
    requires cfg == Reference && r < 18 && c < 16
    ensures Slot(r, c, 16) < |Grid(cfg)| && Fits(Grid(cfg)[Slot(r, c, 16)], MaxElems)
  {
    ReferenceShape(cfg);
    ReferenceRows(cfg);
    var size := KiB * Pow2(17 - r);
    assert size <= cfg.maxBytes by { assert Rows(cfg)[r] == size; }
    assert ElemsOf(size) == 256 * Pow2(17 - r);
  }

  /** Every cell of the program's sweep fits the buffer of `MAXELEMS` ints:
      `elems = size / 4` loses nothing, is positive and at most `MAXELEMS`,
      and the stride is positive. */
  lemma ReferenceCells(cfg: Config)
    requires cfg == Reference
    ensures forall k :: 0 <= k < |Grid(cfg)| ==> Fits(Grid(cfg)[k], MaxElems)
  {
    ReferenceShape(cfg);
    forall k | 0 <= k < |Grid(cfg)|
      ensures Fits(Grid(cfg)[k], MaxElems)
    {
      var r, c := k / 16, k % 16;
      assert Slot(r, c, 16) == k;
      ReferenceCell(cfg, r, c);
    }
  }

  /** A power-of-two size of at least 1 KiB, `2^n` KiB, is labelled
      `2^(n-10)` m when `n > 10` and `2^n` k otherwise. */
  lemma LabelOfPower(n: nat)
    ensures RowLabel(KiB * Pow2(n)) == if n > 10 then Label(Pow2(n - 10), M) else Label(Pow2(n), K)
    ensures RowLabel(KiB * Pow2(n)).amount * UnitBytes(RowLabel(KiB * Pow2(n)).unit) == KiB * Pow2(n)
  {
    Pow2Values();
    var size := KiB * Pow2(n);
    if n > 10 {
      Pow2Add(10, n - 10);
      assert size == MiB * Pow2(n - 10);
      assert Pow2(n - 10) >= 2 by { assert Pow2(n - 10) == 2 * Pow2(n - 11); }
      MulMonotone(2, Pow2(n - 10), MiB);
      DivUnique(size, MiB, Pow2(n - 10), 0);
    } else {
      Pow2Add(n, 10 - n);
      MulMonotone(1, Pow2(10 - n), Pow2(n));
      MulMonotone(Pow2(n), KiB, KiB);
      DivUnique(size, KiB, Pow2(n), 0);
    }
  }

  /** The row labels of the program's sweep: 128m, 64m, .., 2m, then 1024k,
      512k, .., 1k.  Exactly 1 MiB (row 7) is not "strictly above 1 MiB", so
      it is labelled 1024k. */
  lemma ReferenceLabels(cfg: Config)
    requires cfg == Reference
    ensures |Rows(cfg)| == 18
    ensures forall r :: 0 <= r < 7 ==> RowLabel(Rows(cfg)[r]) == Label(Pow2(7 - r), M)
    ensures forall r :: 7 <= r < 18 ==> RowLabel(Rows(cfg)[r]) == Label(Pow2(17 - r), K)
  {
    ReferenceRows(cfg);
    var rows := Rows(cfg);
    forall r | 0 <= r < 18
      ensures RowLabel(rows[r]) == if r < 7 then Label(Pow2(7 - r), M) else Label(Pow2(17 - r), K)
    {
      var n := 17 - r;
      assert rows[r] == KiB * Pow2(n);
      LabelOfPower(n);
      assert n - 10 == 7 - r;
    }
  }

  /** A reduced sweep, 1 KiB .. 4 KiB with strides up to 3 in steps of 2:
      three rows (4096, 2048, 1024) of two columns (1, 3), six cells. */
  lemma SmallSweep()
    ensures Grid(Config(1024, 4096, 3, 2)) ==
              [Cell(4096, 1, 1024), Cell(4096, 3, 1024),
               Cell(2048, 1, 512), Cell(2048, 3, 512),
               Cell(1024, 1, 256), Cell(1024, 3, 256)]
  {
    var cfg := Config(1024, 4096, 3, 2);
    var rows, cols := [4096, 2048, 1024], [1, 3];
    assert Rows(cfg) == rows;
    assert Columns(cfg) == cols;
    assert rows[1..] == [2048, 1024] && rows[1..][1..] == [1024];
    assert RowCells(4096, cols) == [Cell(4096, 1, 1024), Cell(4096, 3, 1024)] by {
      assert ElemsOf(4096) == 1024;
      assert RowCells(4096, cols)[0] == Cell(4096, 1, 1024) && RowCells(4096, cols)[1] == Cell(4096, 3, 1024);
    }
    assert RowCells(2048, cols) == [Cell(2048, 1, 512), Cell(2048, 3, 512)] by {
      assert ElemsOf(2048) == 512;
      assert RowCells(2048, cols)[0] == Cell(2048, 1, 512) && RowCells(2048, cols)[1] == Cell(2048, 3, 512);
    }
    assert RowCells(1024, cols) == [Cell(1024, 1, 256), Cell(1024, 3, 256)] by {
      assert ElemsOf(1024) == 256;
      assert RowCells(1024, cols)[0] == Cell(1024, 1, 256) && RowCells(1024, cols)[1] == Cell(1024, 3, 256);
    }
    assert Cells([1024], cols) == RowCells(1024, cols) + Cells([], cols);
  }
}
