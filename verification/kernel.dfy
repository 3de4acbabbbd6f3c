/**
 The timed access kernel of the memory mountain and the buffer initialiser.

 The compiled kernel `test` walks `data[0], data[stride], data[2*stride], ...`
 below `elems` with its main loop unrolled 32 ways into 32 independent
 accumulators, then finishes the remainder with a plain stride loop and adds
 the accumulators together.  A commented-out variant does the same with 4
 accumulators, and a commented-out naive loop is the reference behaviour.
 Here the unroll factor `w` is a parameter of one kernel, `UnrolledSum`, and
 `Test` and `Test4x4` are its two instances.

 Each kernel returns, besides the sum, the sequence of buffer positions it
 read, in order, so that "which elements were read" is part of its contract.
 */
module Kernel {
  import opened Strided

  /** Unroll factor of the compiled kernel (accumulators `acc0` .. `acc31`). */
  const Unroll32: nat := 32
  /** Unroll factor of the commented-out 4x4 variant (`acc0` .. `acc3`). */
  const Unroll4: nat := 4

  /** The reference kernel: `for (i = 0; i < elems; i += stride) result += data[i]`. */
  method NaiveTest(data: array<int>, elems: nat, stride: nat) returns (result: int, trace: seq<nat>)
    requires stride > 0 && elems <= data.Length
    ensures trace == Walk(0, elems, stride)
    ensures forall k :: 0 <= k < |trace| ==> trace[k] < elems
    ensures result == StridedSum(data[..], elems, stride)
  {
    result, trace := 0, [];
    var i: nat := 0;
    while i < elems
      invariant trace + Walk(i, elems, stride) == Walk(0, elems, stride)
      invariant forall k :: 0 <= k < |trace| ==> trace[k] < elems
      invariant result == SumAt(data[..], trace)
      decreases elems - i
    {
      assert Walk(i, elems, stride) == [i] + Walk(i + stride, elems, stride);
      assert trace + Walk(i, elems, stride) == (trace + [i]) + Walk(i + stride, elems, stride);
      SumAtSnoc(data[..], trace, i);
      result := result + data[i];
      trace := trace + [i];
      i := i + stride;
    }
    assert Walk(i, elems, stride) == [];
  }

  /** The state either loop keeps between reads, with `p` the next position
      to read: the positions read so far, followed by the rest of the walk from
      `p`, make up the whole walk; each was below `elems`; and the accumulators
      total the values read. */
  predicate Progress(d: seq<int>, elems: nat, stride: nat, p: nat, acc: seq<int>, trace: seq<nat>)
  {
    && stride > 0 && elems <= |d|
    && trace + Walk(p, elems, stride) == Walk(0, elems, stride)
    && (forall k :: 0 <= k < |trace| ==> trace[k] < elems)
    && Total(acc) == SumAt(d, trace)
  }

  /** The `w`-way unrolled kernel.

      `limit = elems - w*stride` may be negative.  While `i < limit`, one
      round reads `i, i + stride, ..., i + (w-1)*stride` into accumulators
      `0 .. w-1` and advances `i` by `w*stride`.  The remainder loop then reads
      `i, i + stride, ...` below `elems` into accumulator 0.  The result is the
      total of the accumulators.  `rounds` is the number of unrolled rounds. */
  method UnrolledSum(data: array<int>, elems: nat, stride: nat, w: nat)
    returns (sum: int, trace: seq<nat>, rounds: nat)
    requires w > 0 && stride > 0 && elems <= data.Length
    ensures trace == Walk(0, elems, stride)
    ensures forall k :: 0 <= k < |trace| ==> trace[k] < elems
    ensures sum == StridedSum(data[..], elems, stride)
    ensures rounds == if elems <= w * stride then 0 else CeilDiv(elems - w * stride, w * stride)
    ensures rounds * w <= |trace| <= rounds * w + w
    ensures elems > 0 ==> rounds * w < |trace|
  {
    var sxw := w * stride;
    var limit := elems - sxw;
    var acc: seq<int> := seq(w, _ => 0);
    TotalZeros(w);
    var i: nat := 0;
    trace, rounds := [], 0;

    // Unrolled rounds: lane j of each round feeds accumulator j
    while i < limit
      invariant i == rounds * sxw
      invariant |trace| == rounds * w
      invariant rounds == 0 || i - sxw < limit
      invariant |acc| == w
      invariant Progress(data[..], elems, stride, i, acc, trace)
      decreases elems - i
    {
      acc, trace := UnrolledRound(data, elems, stride, w, i, acc, trace);
      assert (rounds + 1) * w == rounds * w + w;
      assert (rounds + 1) * sxw == rounds * sxw + sxw;
      i := i + sxw;
      rounds := rounds + 1;
    }
    // The remainder loop has at most w positions left, and at least one if elems > 0
    RoundsCount(elems, stride, w, i, rounds);
    assert |Walk(0, elems, stride)| == rounds * w + |Walk(i, elems, stride)|;

    // Plain stride loop over what the rounds left, all into accumulator 0
    var end;
    acc, trace, end := Remainder(data, elems, stride, i, acc, trace);
    sum := Total(acc);
  }

  /** One round of the unrolled loop (the body of `for (i = 0; i < limit; i += sx32)`):
      lane `j` adds `data[i + j*stride]` to accumulator `j`.  It reads exactly
      the next `w` positions of the walk and adds their values to the total. */
  method UnrolledRound(data: array<int>, elems: nat, stride: nat, w: nat, i: nat, acc: seq<int>, trace: seq<nat>)
    returns (acc': seq<int>, trace': seq<nat>)
    requires w > 0 && elems <= data.Length
    requires i < elems - w * stride
    requires |acc| == w && Progress(data[..], elems, stride, i, acc, trace)
    ensures |acc'| == w && Progress(data[..], elems, stride, i + w * stride, acc', trace')
    ensures |trace'| == |trace| + w && trace'[..|trace|] == trace
    ensures forall j :: 0 <= j < w ==> trace'[|trace| + j] == i + j * stride
  {
    acc', trace' := acc, trace;
    var j: nat := 0;
    var p: nat := i;
    while j < w
      invariant j <= w
      invariant p == i + j * stride
      invariant |trace'| == |trace| + j && trace'[..|trace|] == trace
      invariant forall l :: 0 <= l < j ==> trace'[|trace| + l] == i + l * stride
      invariant |acc'| == w
      invariant Progress(data[..], elems, stride, p, acc', trace')
    {
      assert p < elems by { LaneInBounds(i, elems, stride, w, j); }
      ghost var before := trace';
      acc', trace' := ReadInto(data, elems, stride, p, j, acc', trace');
      assert trace'[..|trace|] == before[..|trace|];
      assert forall l :: 0 <= l < |before| ==> trace'[l] == before[l];
      assert (j + 1) * stride == j * stride + stride;
      j := j + 1;
      p := p + stride;
    }
  }

  /** One read of either loop, `acc_j = acc_j + data[p]` at the next position
      `p` of the walk: the read is in bounds, it extends the trace by `p`, and
      the accumulators' total grows by exactly `data[p]`. */
  method ReadInto(data: array<int>, elems: nat, stride: nat, p: nat, j: nat, acc: seq<int>, trace: seq<nat>)
    returns (acc': seq<int>, trace': seq<nat>)
    requires elems <= data.Length && p < elems && j < |acc|
    requires Progress(data[..], elems, stride, p, acc, trace)
    ensures trace' == trace + [p]
    ensures Progress(data[..], elems, stride, p + stride, acc', trace')
    ensures |acc'| == |acc| && acc'[j] == acc[j] + data[p]
    ensures forall l :: 0 <= l < |acc| && l != j ==> acc'[l] == acc[l]
  {
    ProgressStep(data[..], elems, stride, p, j, acc, trace);
    acc' := acc[j := acc[j] + data[p]];
    trace' := trace + [p];
  }

  /** Reading the next position `p < elems` of the walk into any accumulator
      keeps `Progress`, with the next position `p + stride`. */
  lemma ProgressStep(d: seq<int>, elems: nat, stride: nat, p: nat, j: nat, acc: seq<int>, trace: seq<nat>)
    requires p < elems && j < |acc|
    requires Progress(d, elems, stride, p, acc, trace)
    ensures Progress(d, elems, stride, p + stride, acc[j := acc[j] + d[p]], trace + [p])
  {
    var trace', acc' := trace + [p], acc[j := acc[j] + d[p]];
    WalkStep(elems, stride, p, trace);
    assert forall k :: 0 <= k < |trace'| ==> trace'[k] < elems by {
      forall k | 0 <= k < |trace'|
        ensures trace'[k] < elems
      {
        if k < |trace| {
          assert trace'[k] == trace[k];
        }
      }
    }
    SumAtSnoc(d, trace, p);
    TotalUpdate(acc, j, acc[j] + d[p]);
    assert Total(acc') == SumAt(d, trace');
  }

  /** The walk from `p < elems` is `p` followed by the walk from `p + stride`. */
  lemma WalkStep(elems: nat, stride: nat, p: nat, trace: seq<nat>)
    requires stride > 0 && p < elems
    requires trace + Walk(p, elems, stride) == Walk(0, elems, stride)
    ensures (trace + [p]) + Walk(p + stride, elems, stride) == Walk(0, elems, stride)
  {
    assert Walk(p, elems, stride) == [p] + Walk(p + stride, elems, stride);
    assert trace + Walk(p, elems, stride) == (trace + [p]) + Walk(p + stride, elems, stride);
  }

  /** The remainder loop `for (; i < length; i += stride) acc0 += data[i]`:
      it reads the rest of the walk from `i` on, all into accumulator 0, and
      stops at the first `end >= elems` of the form `i + k*stride`. */
  method Remainder(data: array<int>, elems: nat, stride: nat, i: nat, acc: seq<int>, trace: seq<nat>)
    returns (acc': seq<int>, trace': seq<nat>, end: nat)
    requires elems <= data.Length && |acc| > 0
    requires Progress(data[..], elems, stride, i, acc, trace)
    ensures stride > 0 && trace' == Walk(0, elems, stride)
    ensures forall k :: 0 <= k < |trace'| ==> trace'[k] < elems
    ensures |acc'| == |acc| && Total(acc') == SumAt(data[..], trace')
    ensures end >= elems && (end - i) % stride == 0
    ensures i < elems ==> end < elems + stride
    ensures i >= elems ==> end == i
  {
    acc', trace' := acc, trace;
    var p: nat := i;
    while p < elems
      invariant i <= p && (p - i) % stride == 0
      invariant i < p ==> p < elems + stride
      invariant i >= elems ==> p == i
      invariant |acc'| == |acc|
      invariant Progress(data[..], elems, stride, p, acc', trace')
      decreases elems - p
    {
      acc', trace' := ReadInto(data, elems, stride, p, 0, acc', trace');
      ModStep(p - i, stride);
      p := p + stride;
    }
    assert Walk(p, elems, stride) == [];
    end := p;
  }

  /** Adding the divisor keeps a multiple a multiple. */
  lemma ModStep(a: int, s: int)
    requires s > 0 && a % s == 0
    ensures (a + s) % s == 0
  {
    DivUnique(a + s, s, a / s + 1, 0);
  }

  /** Every read of an unrolled round is in bounds: with `i < elems - w*stride`,
      each lane `i + j*stride`, `j < w`, is below `elems`. */
  lemma LaneInBounds(i: nat, elems: nat, stride: nat, w: nat, j: nat)
    requires stride > 0 && j < w && i < elems - w * stride
    ensures i + j * stride < elems
  {
    MulMonotone(j, w - 1, stride);
    assert (w - 1) * stride == w * stride - stride;
  }

  /** Where the unrolled loop stops: it runs `ceil(limit / (w*stride))` rounds
      when `limit = elems - w*stride > 0` and none otherwise, and it leaves
      between one (if `elems > 0`) and `w` positions for the remainder loop. */
  lemma RoundsCount(elems: nat, stride: nat, w: nat, i: nat, rounds: nat)
    requires w > 0 && stride > 0
    requires i == rounds * (w * stride)
    requires i >= elems - w * stride
    requires rounds == 0 || i - w * stride < elems - w * stride
    ensures rounds == if elems <= w * stride then 0 else CeilDiv(elems - w * stride, w * stride)
    ensures |Walk(i, elems, stride)| <= w
    ensures elems > 0 ==> |Walk(i, elems, stride)| > 0
  {
    var sxw := w * stride;
    if elems <= sxw {
      if rounds > 0 {
        MulAtLeast(rounds, sxw);
        assert false;
      }
    } else {
      assert (rounds - 1) * sxw == rounds * sxw - sxw;
      CeilDivUnique(elems - sxw, sxw, rounds);
    }
    WalkLength(i, elems, stride);
    if i < elems {
      CeilDivAtMost(elems - i, stride, w);
      CeilDivBounds(elems - i, stride);
    }
  }

  /** The compiled kernel `test(elems, stride)`: 32 accumulators.  It reads
      every `stride`-th element below `elems` once, in increasing order, and
      when `elems <= 32*stride` the unrolled loop does not run at all. */
  method Test(data: array<int>, elems: nat, stride: nat) returns (sum: int, trace: seq<nat>, rounds: nat)
    requires stride > 0 && elems <= data.Length
    ensures trace == Walk(0, elems, stride)
    ensures sum == StridedSum(data[..], elems, stride)
    ensures elems <= Unroll32 * stride ==> rounds == 0
    ensures elems > Unroll32 * stride ==> rounds == CeilDiv(elems - Unroll32 * stride, Unroll32 * stride)
    ensures 0 < elems <= stride ==> trace == [0]
  {
    sum, trace, rounds := UnrolledSum(data, elems, stride, Unroll32);
    if 0 < elems <= stride {
      assert Walk(stride, elems, stride) == [];
    }
  }

  /** The commented-out 4x4 variant of `test`: the same kernel with 4 accumulators. */
  method Test4x4(data: array<int>, elems: nat, stride: nat) returns (sum: int, trace: seq<nat>, rounds: nat)
    requires stride > 0 && elems <= data.Length
    ensures trace == Walk(0, elems, stride)
    ensures sum == StridedSum(data[..], elems, stride)
    ensures elems <= Unroll4 * stride ==> rounds == 0
    ensures elems > Unroll4 * stride ==> rounds == CeilDiv(elems - Unroll4 * stride, Unroll4 * stride)
    ensures 0 < elems <= stride ==> trace == [0]
  {
    sum, trace, rounds := UnrolledSum(data, elems, stride, Unroll4);
    if 0 < elems <= stride {
      assert Walk(stride, elems, stride) == [];
    }
  }

  /** `init_data(data, n)`: sets `data[0 .. n)` to 1 and writes nothing else. */
  method InitData(data: array<int>, n: nat)
    requires n <= data.Length
    modifies data
    ensures forall k :: 0 <= k < n ==> data[k] == 1
    ensures forall k :: n <= k < data.Length ==> data[k] == old(data[k])
  {
    var i := 0;
    while i < n
      invariant i <= n
      invariant forall k :: 0 <= k < i ==> data[k] == 1
      invariant forall k :: n <= k < data.Length ==> data[k] == old(data[k])
    {
      data[i] := 1;
      i := i + 1;
    }
  }

  /** Over the buffer `init_data` leaves, the kernel's sum is the number of
      positions it visits, `ceil(elems / stride)`: nothing skipped, nothing
      counted twice. */
  lemma OnesCount(data: seq<int>, elems: nat, stride: nat)
    requires stride > 0 && elems <= |data|
    requires forall k :: 0 <= k < elems ==> data[k] == 1
    ensures StridedSum(data, elems, stride) == CeilDiv(elems, stride)
  {
    WalkElements(0, elems, stride);
    WalkLength(0, elems, stride);
    SumAtOnes(data, Walk(0, elems, stride));
    if elems == 0 {
      CeilDivBounds(elems, stride);
    }
  }
}
