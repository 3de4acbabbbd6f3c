/**
 Index arithmetic of a strided walk over a buffer: the positions
 `from, from + s, from + 2s, ...` that lie below a bound, how many there are,
 and the sum of a buffer's values at a list of positions.

 `Walk` is the reference behaviour of the memory-mountain kernel: it is the
 plain loop `for (i = 0; i < elems; i += stride)` written as a recursive
 function, and every faster variant of the kernel is proved against it.
 */
module Strided {

  /** Ceiling of `e / s` for a positive divisor: the number of multiples of
      `s` in `[0, e)`. */
  function CeilDiv(e: nat, s: nat): (c: nat)
    requires s > 0
  {
    (e + s - 1) / s
  }

  /** Euclidean division is determined by any quotient/remainder pair. */
  lemma DivUnique(a: int, s: int, q: int, r: int)
    requires s > 0 && a == q * s + r && 0 <= r < s
    ensures a / s == q && a % s == r
  {
    var q', r' := a / s, a % s;
    assert a == q' * s + r';
    if q' > q {
      assert (q' - q) * s >= s by { MulAtLeast(q' - q, s); }
      assert false;
    } else if q' < q {
      assert (q - q') * s >= s by { MulAtLeast(q - q', s); }
      assert false;
    }
  }

  lemma MulAtLeast(k: int, s: int)
    requires k >= 1 && s > 0
    ensures k * s >= s
  {
    assert k * s == (k - 1) * s + s;
    assert (k - 1) * s >= 0;
  }

  lemma MulMonotone(a: int, b: int, s: int)
    requires a <= b && s >= 0
    ensures a * s <= b * s
  {
    assert b * s - a * s == (b - a) * s;
  }

  /** `CeilDiv(e, s)` is the least `n` with `n * s >= e`. */
  lemma CeilDivBounds(e: nat, s: nat)
    requires s > 0
    ensures CeilDiv(e, s) * s >= e
    ensures e > 0 ==> (CeilDiv(e, s) - 1) * s < e
    ensures CeilDiv(e, s) == 0 <==> e == 0
  {
    var c, r := (e + s - 1) / s, (e + s - 1) % s;
    assert e + s - 1 == c * s + r;
    assert (c - 1) * s == c * s - s;
    if c == 0 {
      assert e + s - 1 == r;
    }
  }

  /** Any `n` squeezed between the two bounds of `CeilDivBounds` is `CeilDiv(e, s)`. */
  lemma CeilDivUnique(e: nat, s: nat, n: nat)
    requires s > 0
    requires n * s >= e
    requires n == 0 || (n - 1) * s < e
    ensures n == CeilDiv(e, s)
  {
    if n == 0 {
      DivUnique(e + s - 1, s, 0, e + s - 1);
    } else {
      assert (n - 1) * s == n * s - s;
      DivUnique(e + s - 1, s, n, e + s - 1 - n * s);
    }
  }

  /** Taking off one full stride removes exactly one visited position. */
  lemma CeilDivStep(e: nat, s: nat)
    requires s > 0 && e > s
    ensures CeilDiv(e, s) == CeilDiv(e - s, s) + 1
  {
    var c := CeilDiv(e - s, s);
    CeilDivBounds(e - s, s);
    assert (c + 1) * s == c * s + s;
    assert c * s == (c - 1) * s + s;
    CeilDivUnique(e, s, c + 1);
  }

  /** Fewer than `w * s` positions at stride `s` means at most `w` visits. */
  lemma CeilDivAtMost(e: nat, s: nat, w: nat)
    requires s > 0 && e <= w * s
    ensures CeilDiv(e, s) <= w
  {
    var c := CeilDiv(e, s);
    CeilDivBounds(e, s);
    if c > w {
      MulMonotone(w, c - 1, s);
      assert false;
    }
  }

  /** The positions `from, from + s, from + 2s, ...` strictly below `e`, in
      the order the plain stride loop reads them. */
  function Walk(from: nat, e: nat, s: nat): (w: seq<nat>)
    requires s > 0
    decreases e - from
  {
    if from >= e then [] else [from] + Walk(from + s, e, s)
  }

  /** The walk's k-th position is `from + k*s`, and it stays in `[from, e)`. */
  lemma {:induction false} WalkElements(from: nat, e: nat, s: nat)
    requires s > 0
    ensures forall k :: 0 <= k < |Walk(from, e, s)| ==>
              Walk(from, e, s)[k] == from + k * s && from <= Walk(from, e, s)[k] < e
    decreases e - from
  {
    if from < e {
      var w := Walk(from, e, s);
      WalkElements(from + s, e, s);
      forall k | 0 < k < |w|
        ensures w[k] == from + k * s && from <= w[k] < e
      {
        assert w[k] == Walk(from + s, e, s)[k - 1];
        assert from + s + (k - 1) * s == from + k * s;
      }
    }
  }

  /** The walk visits exactly `ceil((e - from) / s)` positions. */
  lemma {:induction false} WalkLength(from: nat, e: nat, s: nat)
    requires s > 0
    ensures |Walk(from, e, s)| == if from >= e then 0 else CeilDiv(e - from, s)
    decreases e - from
  {
    if from < e {
      WalkLength(from + s, e, s);
      if from + s >= e {
        CeilDivUnique(e - from, s, 1);
      } else {
        CeilDivStep(e - from, s);
      }
    }
  }

  /** The walk is strictly increasing, so no position is read twice. */
  lemma {:induction false} WalkIncreasing(from: nat, e: nat, s: nat)
    requires s > 0
    ensures forall a, b :: 0 <= a < b < |Walk(from, e, s)| ==> Walk(from, e, s)[a] < Walk(from, e, s)[b]
    ensures forall a, b :: 0 <= a < b < |Walk(from, e, s)| ==> Walk(from, e, s)[a] != Walk(from, e, s)[b]
    decreases e - from
  {
    if from < e {
      var w := Walk(from, e, s);
      WalkIncreasing(from + s, e, s);
      WalkElements(from + s, e, s);
      forall a, b | 0 <= a < b < |w|
        ensures w[a] < w[b]
      {
        assert w[b] == Walk(from + s, e, s)[b - 1];
        if a > 0 {
          assert w[a] == Walk(from + s, e, s)[a - 1];
        }
      }
    }
  }

  /** The walk from 0 never visits more positions than there are below `e`. */
  lemma WalkAtMost(e: nat, s: nat)
    requires s > 0
    ensures |Walk(0, e, s)| <= e
  {
    WalkLength(0, e, s);
    if e > 0 {
      MulMonotone(1, s, e);
      CeilDivAtMost(e, s, e);
    }
  }

  /** A position is visited iff it lies in `[0, e)` and is a multiple of `s`. */
  lemma WalkMembership(e: nat, s: nat, x: nat)
    requires s > 0
    ensures x in Walk(0, e, s) <==> x < e && x % s == 0
  {
    var w := Walk(0, e, s);
    WalkElements(0, e, s);
    WalkLength(0, e, s);
    if x in w {
      var k :| 0 <= k < |w| && w[k] == x;
      DivUnique(x, s, k, 0);
    }
    if x < e && x % s == 0 {
      var k := x / s;
      assert x == k * s;
      CeilDivBounds(e, s);
      if k >= |w| {
        MulMonotone(|w|, k, s);
        assert false;
      }
      assert w[k] == x;
    }
  }

  /** Sum of `d` at the positions `idx`, accumulated left to right. */
  function SumAt(d: seq<int>, idx: seq<nat>): (sum: int)
    requires forall k :: 0 <= k < |idx| ==> idx[k] < |d|
  {
    if |idx| == 0 then 0 else SumAt(d, idx[..|idx| - 1]) + d[idx[|idx| - 1]]
  }

  /** The reference result of the kernel: the sum of `d[0], d[s], d[2s], ...`
      below `e`, as the naive stride loop computes it. */
  function StridedSum(d: seq<int>, e: nat, s: nat): (sum: int)
    requires s > 0 && e <= |d|
  {
    WalkElements(0, e, s);
    SumAt(d, Walk(0, e, s))
  }

  /** Reading one more position adds exactly its value. */
  lemma SumAtSnoc(d: seq<int>, idx: seq<nat>, p: nat)
    requires forall k :: 0 <= k < |idx| ==> idx[k] < |d|
    requires p < |d|
    ensures SumAt(d, idx + [p]) == SumAt(d, idx) + d[p]
  {
    assert (idx + [p])[..|idx|] == idx;
  }

  /** Over a buffer of ones, the sum at some positions counts them. */
  lemma {:induction false} SumAtOnes(d: seq<int>, idx: seq<nat>)
    requires forall k :: 0 <= k < |idx| ==> idx[k] < |d| && d[idx[k]] == 1
    ensures SumAt(d, idx) == |idx|
  {
    if |idx| > 0 {
      SumAtOnes(d, idx[..|idx| - 1]);
    }
  }

  /** A sum of `|idx|` values, each of magnitude at most `b`, has magnitude at most `|idx| * b`. */
  lemma {:induction false} SumAtBound(d: seq<int>, idx: seq<nat>, b: nat)
    requires forall k :: 0 <= k < |idx| ==> idx[k] < |d| && -(b as int) <= d[idx[k]] <= b
    ensures -(|idx| * b) <= SumAt(d, idx) <= |idx| * b
  {
    if |idx| > 0 {
      SumAtBound(d, idx[..|idx| - 1], b);
      assert |idx| * b == (|idx| - 1) * b + b;
    }
  }

  /** Sum of all entries: the kernel's final combination of its accumulators. */
  function Total(acc: seq<int>): (t: int)
  {
    if |acc| == 0 then 0 else acc[0] + Total(acc[1..])
  }

  /** Adding to one accumulator adds the same amount to the total. */
  lemma {:induction false} TotalUpdate(acc: seq<int>, j: nat, v: int)
    requires j < |acc|
    ensures Total(acc[j := v]) == Total(acc) - acc[j] + v
  {
    if j > 0 {
      TotalUpdate(acc[1..], j - 1, v);
      assert acc[j := v][1..] == acc[1..][j - 1 := v];
    } else {
      assert acc[j := v][1..] == acc[1..];
    }
  }

  /** Accumulators that all start at zero total zero. */
  lemma {:induction false} TotalZeros(n: nat)
    ensures Total(seq(n, _ => 0)) == 0
  {
    if n > 0 {
      assert seq(n, _ => 0)[1..] == seq(n - 1, _ => 0);
      TotalZeros(n - 1);
    }
  }
}
