# Memory mountain: a Dafny model of the strided-read kernel and its sweep

`mountain.c` draws the "memory mountain", a read-throughput surface over
working-set size and stride. Every cell of the surface times one call of a
kernel. The kernel, `test(elems, stride)`, sums `data[0], data[stride],
data[2*stride], ...` below `elems`. Its main loop is unrolled 32 ways into 32
independent `long` accumulators, guarded by `limit = elems - 32*stride`. A
plain stride loop then reads what is left into `acc0`, and the accumulators
are added together at the end.

This project models the integer part of the program:

- **`Strided`** (`strided.dfy`) holds the reference behaviour. `Walk(0, e, s)`
  is the list of positions the naive loop `for (i = 0; i < elems; i += stride)`
  reads, and `StridedSum` is its sum. It also gives the ceiling count
  `CeilDiv`, and `Total` sums the accumulators.
- **`Kernel`** (`kernel.dfy`) holds one unrolled kernel, `UnrolledSum`, with
  the unroll factor `w` as a parameter. The compiled 32-way kernel (`Test`)
  and the commented-out 4x4 variant (`Test4x4`) are its two instances.
  - It is proved equal to the naive loop (`NaiveTest`).
  - Every read stays in bounds.
  - It reads exactly the walk: strictly increasing positions with no repeats.
  - The number of unrolled rounds is given exactly.
  - `init_data` is `InitData`.
- **`Sweep`** (`sweep.dfy`) holds the `(size, stride)` sweep of `main`:
  - sizes halving from `MAXBYTES` down to `MINBYTES`;
  - strides `1, 3, ...` up to `MAXSTRIDE`;
  - the cells in row-major order, with `elems = size / sizeof(int)`;
  - the row-label unit.
  For the program's own constants this gives 18 rows, 16 columns, 288 cells,
  and every cell fits the `MAXELEMS` buffer.
- **`Driver`** (`driver.dfy`) holds `run` and the measuring loops of `main`,
  with the timing taken out. Over the all-ones buffer, every cell's kernel sum
  is `ceil(elems / stride)`. For at most `MAXELEMS` 32-bit `int` elements, the
  kernel's final sum fits a `long`.

Each kernel also returns the sequence of buffer positions it read, in order.
This makes "which elements were read" part of its contract.

Two edge cases of the code are easy to misread, and the model follows the code
in both:

- **Row labels.** The test `size > (1 << 20)` (mountain.c:44) labels a row in
  `m` only when it is strictly above 1 MiB. So exactly 1 MiB is printed
  `1024k`, not `1m` (`Sweep.RowLabel`, `Sweep.ReferenceLabels`).
- **When the unrolled loop is skipped.** The guard `i < limit` with
  `limit = elems - W*stride` skips the unrolled loop whenever
  `elems <= W*stride`, including `elems == W*stride`, not only when
  `elems < W*stride`. The remainder loop then reads all of the walk
  (`Kernel.RoundsCount`, `Kernel.Test`).

## Model

| member | source | states |
|---|---|---|
| `Strided.WalkElements` | mountain.c:74-75 | the k-th position the naive stride loop reads is `from + k*stride`, and it lies in `[from, elems)` |
| `Strided.WalkLength` | mountain.c:74-75 | the naive loop reads exactly `ceil((elems - from) / stride)` positions, and none when `from >= elems` |
| `Strided.WalkIncreasing` | mountain.c:139-177 | the positions read are strictly increasing, so no element is read twice |
| `Strided.WalkMembership` | mountain.c:74-75 | a position is read if and only if it is below `elems` and a multiple of `stride` |
| `Kernel.NaiveTest` | mountain.c:69-77 | the naive loop reads exactly the walk, every read is below `elems`, and `result` is the strided sum |
| `Kernel.UnrolledSum` | mountain.c:115-180 | for any unroll factor `w`, both loops together read exactly the naive walk, every read is below `elems`, and the accumulators' total equals the naive strided sum; the unrolled loop runs `ceil((elems - w*stride) / (w*stride))` rounds when `elems > w*stride` and none otherwise, and leaves between 1 (when `elems > 0`) and `w` reads for the remainder loop |
| `Kernel.UnrolledRound` | mountain.c:139-172 | one round with `i < limit` reads `i + j*stride` for lanes `j = 0 .. w-1`, in order, all below `elems`, continues the walk at `i + w*stride`, and adds exactly those values to the accumulators' total |
| `Kernel.ReadInto` | mountain.c:140-171 | one accumulator update `acc_j += data[p]` at the walk's next position grows `acc_j` and the total by exactly `data[p]`, leaves the other accumulators unchanged, and extends the trace by `p` |
| `Kernel.Remainder` | mountain.c:175-177 | the remainder loop reads the rest of the walk, every read is below `elems`, and it stops at the first `i + k*stride >= elems` (at `i` itself if `i >= elems` already) |
| `Kernel.LaneInBounds` | mountain.c:136-171 | when `i < elems - w*stride`, every lane `i + j*stride` with `j < w` is below `elems` |
| `Kernel.RoundsCount` | mountain.c:136-139 | the unrolled loop stops after `ceil(limit / (w*stride))` rounds when `limit > 0` and after none when `limit <= 0`, leaving at most `w` positions and, for `elems > 0`, at least one |
| `Kernel.Test` | mountain.c:115-180 | the 32-accumulator kernel computes the naive strided sum over the naive walk; when `elems <= 32*stride` the unrolled loop never runs, and when `0 < elems <= stride` only `data[0]` is read (nothing is read when `elems == 0`) |
| `Kernel.Test4x4` | mountain.c:85-107 | the 4-accumulator variant computes the same sum over the same walk; when `elems <= 4*stride` its unrolled loop never runs |
| `Kernel.InitData` | mountain.c:60-66 | after `init_data(data, n)` every `data[k]` with `k < n` is 1 and nothing at or beyond `n` is written |
| `Kernel.OnesCount` | mountain.c:64-77 | over a buffer whose first `elems` entries are 1, the strided sum is the number of positions visited, `ceil(elems / stride)` |
| `Sweep.ElemsOf` | mountain.c:186 | `elems = size / sizeof(int)` is the number of whole 4-byte ints in `size` bytes |
| `Sweep.Sizes` | mountain.c:41 | the size loop starts at `MAXBYTES`, halves at each step, stays within `[MINBYTES, MAXBYTES]`, stops when the next half would fall below `MINBYTES`, and is empty if and only if `MAXBYTES < MINBYTES` |
| `Sweep.Strides` | mountain.c:50 | the stride loop yields `1 + k*STRIDESTRIDE`, each at most `MAXSTRIDE`, stops at the first value past `MAXSTRIDE`, and is empty if and only if it starts past `MAXSTRIDE` |
| `Sweep.SizesHalving` | mountain.c:41 | halving from `m * 2^n` down to `m` gives exactly `n + 1` sizes, the k-th being `m * 2^(n-k)` |
| `Sweep.StridesCount` | mountain.c:50 | the stride loop runs `ceil((MAXSTRIDE + 1 - first) / STRIDESTRIDE)` times |
| `Sweep.CellsLength` | mountain.c:41-52 | the nested loops measure `rows * columns` cells |
| `Sweep.CellAt` | mountain.c:41-52 | the cell measured at position `r * columns + c` is (row `r`'s size, column `c`'s stride, that size's element count) |
| `Sweep.CellsLayout` | mountain.c:41-52 | every cell of the sweep lies at its row-major position, with `elems = size / 4` |
| `Sweep.ReferenceRows` | mountain.c:8-9 | with `MINBYTES = 2^10` and `MAXBYTES = 2^27` there are 18 rows, row `r` being `2^(17-r)` KiB |
| `Sweep.ReferenceColumns` | mountain.c:10-11 | with `MAXSTRIDE = 32` and `STRIDESTRIDE = 2` there are 16 columns, column `c` being stride `2c + 1` |
| `Sweep.ReferenceShape` | mountain.c:41-52 | the program's sweep measures 288 cells, and the cell at row `r`, column `c` is (`2^(17-r)` KiB, `2c + 1`, `size / 4`) |
| `Sweep.ReferenceCells` | mountain.c:12-14 | every cell of the program's sweep has a positive stride and a positive element count, at most `MAXELEMS`, that loses nothing to the division by 4 |
| `Sweep.SmallSweep` | mountain.c:41-52 | a sweep of 1 KiB to 4 KiB with strides up to 3 in steps of 2 measures exactly the six cells (4096,1), (4096,3), (2048,1), (2048,3), (1024,1), (1024,3) with 1024, 512 and 256 elements |
| `Sweep.RowLabel` | mountain.c:44-47 | a row is labelled in MiB if and only if its size is strictly above 1 MiB, otherwise in KiB, and the amount is the size rounded down to whole units |
| `Sweep.LabelOfPower` | mountain.c:44-47 | a size of `2^n` KiB is labelled `2^(n-10)` m when `n > 10` and `2^n` k otherwise, with no rounding |
| `Sweep.ReferenceLabels` | mountain.c:44-47 | the program's rows are labelled 128m, 64m, .., 2m, then 1024k, 512k, .., 1k, so exactly 1 MiB is `1024k` |
| `Driver.Run` | mountain.c:183-191 | `run` computes `elems = size / 4`; its measured kernel call reads the walk and returns the strided sum, which over an all-ones buffer is `ceil(elems / stride)` and, for at most `MAXELEMS` 32-bit `int` elements, lies in the `long` range |
| `Driver.Mountain` | mountain.c:41-54 | for any sweep whose element counts fit the buffer, over the all-ones buffer, the sweep makes one kernel call per cell, in row-major order, and the call for each cell returns `ceil(elems / stride)` |
| `Driver.MountainRow` | mountain.c:50-52 | one row of the sweep appends one kernel sum per stride column, each equal to that cell's visit count |
| `Driver.SumFitsInLong` | mountain.c:126-134 | a sum of at most `MAXELEMS` 32-bit `int` values, at any positions, lies within the 64-bit `long` range |
| `Driver.KernelSumFitsInLong` | mountain.c:126-179 | when `elems <= MAXELEMS` and the buffer holds 32-bit `int` values, the kernel's result, the strided sum that the accumulators total to, lies within the `long` range |

## Left out

- The timing harness `fcyc2` (mountain.c:189) and its k-best measurement. `fcyc2.h` is not part of this model. The model keeps only the kernel call it times.
- Clock-frequency estimation `mhz` (mountain.c:29). It uses an external cycle counter.
- The throughput figure `(size / stride) / (cycles / Mhz)` (mountain.c:190). It is floating-point arithmetic on a measured time.
- All `printf` output (mountain.c:32-53). The model keeps only the integer choice of row-label unit and amount.
- The `volatile sink` of the naive loop (mountain.c:72-76). It exists only to keep the compiler from removing the loop. The model returns the result instead.
- The local `sum` of `test` (mountain.c:179). It combines the accumulators but is never used, and `test` returns nothing. The model returns that combination, `Total(acc)`, as the kernel's result.
- The fixed global `data[MAXELEMS]` (mountain.c:14). The buffer is an array parameter of any length, and the kernels require `elems <= data.Length`.
- C `int` width. Element counts and strides are unbounded naturals.
  - `stride*32` is computed in 32-bit `int` before it is widened to `long` (mountain.c:124). This would overflow for strides of 2^26 and above, far beyond the program's largest, 31.
  - `size >>= 1` on a positive `int` is modelled as division by 2.
  - Buffer elements are unbounded `int`s. The 32-bit range of C `int` appears only as a hypothesis of `Driver.SumFitsInLong`, `Driver.KernelSumFitsInLong` and the overflow clause of `Driver.Run`.
  - The naive loop's `int result` (mountain.c:71) is not wrapped at 32 bits. `Kernel.NaiveTest` returns the exact sum, which can exceed the `int` range for large element values. Over the all-ones buffer it is at most `MAXELEMS` = 2^25 and does fit.
- `Driver.KernelSumFitsInLong`: bounds the kernel's final total only, not each accumulator `acc0` .. `acc31` separately. Each accumulator also sums a subset of the same at most `MAXELEMS` values, so the same bound holds for it, but the model does not expose the accumulators' values to state it.
- `Driver.Run`: returns the kernel's sum and read positions instead of the MB/s figure. The figure depends on the measured cycle count. The warm-up call's result is not used.
- `Driver.Mountain`: takes the buffer in the state `init_data(data, MAXELEMS)` leaves it (all ones) as a precondition, rather than calling `Kernel.InitData` itself. The model keeps the pure sweep separate from the one mutating call.
