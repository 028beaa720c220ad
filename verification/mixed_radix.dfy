/** Frame numbers as mixed-radix numerals: the frames of an nd2 file run
    through every combination of axis indices, the first axis fastest, so
    a frame number and its axis indices determine each other
    (sources/nd2/large_image_source_nd2/__init__.py:264-274). */
module MixedRadix {
  import opened Arith

  /** Every radix is at least 1. */
  predicate Positive(sizes: seq<nat>) {
    forall k | 0 <= k < |sizes| :: sizes[k] >= 1
  }

  /** The number of combinations of the axis indices. */
  function Prod(sizes: seq<nat>): (p: nat)
    requires Positive(sizes)
    ensures p >= 1
  {
    if |sizes| == 0 then 1
    else
      assert Positive(sizes[1..]) by {
        assert forall k | 0 <= k < |sizes| - 1 :: sizes[1..][k] == sizes[k + 1];
      }
      MulMonotonic(1, sizes[0], Prod(sizes[1..]));
      sizes[0] * Prod(sizes[1..])
  }

  /** The weight `basis` of axis `k` as the source accumulates it: the
      product of the sizes of the axes before it. */
  function Basis(sizes: seq<nat>, k: nat): (b: nat)
    requires Positive(sizes) && k <= |sizes|
    ensures b >= 1
  {
    if k == 0 then 1
    else
      MulMonotonic(1, sizes[k - 1], Basis(sizes, k - 1));
      Basis(sizes, k - 1) * sizes[k - 1]
  }

  /** `(idx // basis) % sizes[axis]`: the index of axis `k` in frame `idx`. */
  function Digit(sizes: seq<nat>, idx: nat, k: nat): (d: nat)
    requires Positive(sizes) && k < |sizes|
    ensures d < sizes[k]
  {
    (idx / Basis(sizes, k)) % sizes[k]
  }

  /** The index of every axis in frame `idx`. */
  function Digits(sizes: seq<nat>, idx: nat): (ds: seq<nat>)
    requires Positive(sizes)
    ensures |ds| == |sizes|
    ensures forall k | 0 <= k < |sizes| :: ds[k] == Digit(sizes, idx, k)
  {
    seq(|sizes|, k requires 0 <= k < |sizes| => Digit(sizes, idx, k))
  }

  /** The frame number of a combination of axis indices. */
  function Compose(sizes: seq<nat>, ds: seq<nat>): nat
    requires Positive(sizes) && |ds| == |sizes|
  {
    if |sizes| == 0 then 0
    else
      assert Positive(sizes[1..]) by {
        assert forall k | 0 <= k < |sizes| - 1 :: sizes[1..][k] == sizes[k + 1];
      }
      ds[0] + sizes[0] * Compose(sizes[1..], ds[1..])
  }

  /** Each index is below its axis size. */
  predicate InRange(sizes: seq<nat>, ds: seq<nat>) {
    |ds| == |sizes| && forall k | 0 <= k < |sizes| :: ds[k] < sizes[k]
  }

  lemma PositiveTail(sizes: seq<nat>)
    requires Positive(sizes) && |sizes| >= 1
    ensures Positive(sizes[1..])
  {
    assert forall k | 0 <= k < |sizes| - 1 :: sizes[1..][k] == sizes[k + 1];
  }

  /** The weight of axis `k` is the first size times the weight of axis
      `k - 1` among the remaining axes. */
  lemma {:induction false} BasisTail(sizes: seq<nat>, k: nat)
    requires Positive(sizes) && 1 <= k <= |sizes|
    ensures Positive(sizes[1..])
    ensures Basis(sizes, k) == sizes[0] * Basis(sizes[1..], k - 1)
  {
    PositiveTail(sizes);
    if k > 1 {
      BasisTail(sizes, k - 1);
      assert sizes[1..][k - 2] == sizes[k - 1];
    }
  }

  /** The weight past the last axis is the number of combinations. */
  lemma {:induction false} BasisAll(sizes: seq<nat>)
    requires Positive(sizes)
    ensures Basis(sizes, |sizes|) == Prod(sizes)
  {
    if |sizes| > 0 {
      BasisTail(sizes, |sizes|);
      BasisAll(sizes[1..]);
    }
  }

  /** The source's digits, peeled off from the first axis. */
  lemma DigitsStep(sizes: seq<nat>, idx: nat)
    requires Positive(sizes) && |sizes| >= 1
    ensures Positive(sizes[1..])
    ensures Digits(sizes, idx) == [idx % sizes[0]] + Digits(sizes[1..], idx / sizes[0])
  {
    PositiveTail(sizes);
    var rest := sizes[1..];
    forall k | 1 <= k < |sizes|
      ensures Digit(sizes, idx, k) == Digit(rest, idx / sizes[0], k - 1)
    {
      BasisTail(sizes, k);
      DivDiv(idx, sizes[0], Basis(rest, k - 1));
    }
    assert Digit(sizes, idx, 0) == idx % sizes[0];
  }

  /** Composing the digits of a frame number gives it back. */
  lemma {:induction false} ComposeDigits(sizes: seq<nat>, idx: nat)
    requires Positive(sizes) && idx < Prod(sizes)
    ensures Compose(sizes, Digits(sizes, idx)) == idx
  {
    if |sizes| > 0 {
      DigitsStep(sizes, idx);
      var s, rest := sizes[0], sizes[1..];
      var q := idx / s;
      DivModParts(idx, s);
      assert q < Prod(rest) by {
        if q >= Prod(rest) {
          MulMonotonic(Prod(rest), q, s);
        }
      }
      ComposeDigits(rest, q);
      var ds := Digits(sizes, idx);
      assert ds[0] == idx % s && ds[1..] == Digits(rest, q);
      assert Compose(sizes, ds) == ds[0] + s * Compose(rest, ds[1..]);
    }
  }

  /** Every combination of indices in range is a frame number below the
      number of combinations ... */
  lemma {:induction false} ComposeBelow(sizes: seq<nat>, ds: seq<nat>)
    requires Positive(sizes) && InRange(sizes, ds)
    ensures Compose(sizes, ds) < Prod(sizes)
  {
    if |sizes| > 0 {
      PositiveTail(sizes);
      var s, rest := sizes[0], sizes[1..];
      assert InRange(rest, ds[1..]) by {
        assert forall k | 0 <= k < |rest| :: ds[1..][k] == ds[k + 1] && rest[k] == sizes[k + 1];
      }
      ComposeBelow(rest, ds[1..]);
      var m, p := Compose(rest, ds[1..]), Prod(rest);
      assert Compose(sizes, ds) == ds[0] + s * m;
      assert Prod(sizes) == s * p;
      BelowProduct(ds[0], m, s, p);
    }
  }

  lemma BelowProduct(d: nat, m: nat, s: nat, p: nat)
    requires d < s && m < p
    ensures d + s * m < s * p
  {
    MulMonotonic(m + 1, p, s);
  }

  /** ... and its digits are the combination. */
  lemma {:induction false} DigitsCompose(sizes: seq<nat>, ds: seq<nat>)
    requires Positive(sizes) && InRange(sizes, ds)
    ensures Digits(sizes, Compose(sizes, ds)) == ds
  {
    if |sizes| > 0 {
      PositiveTail(sizes);
      var s, rest := sizes[0], sizes[1..];
      var n := Compose(sizes, ds);
      var m := Compose(rest, ds[1..]);
      assert InRange(rest, ds[1..]) by {
        assert forall k | 0 <= k < |rest| :: ds[1..][k] == ds[k + 1] && rest[k] == sizes[k + 1];
      }
      DivModUnique(n, s, m, ds[0]);
      DigitsStep(sizes, n);
      DigitsCompose(rest, ds[1..]);
      assert ds == [ds[0]] + ds[1..];
    }
  }

  /** Axis `k` stays at index 0 until frame `Basis(k)`, where it first
      reaches 1 (when its size allows an index 1). */
  lemma FirstStep(sizes: seq<nat>, idx: nat, k: nat)
    requires Positive(sizes) && k < |sizes|
    ensures idx < Basis(sizes, k) ==> Digit(sizes, idx, k) == 0
    ensures Digit(sizes, idx, k) >= 1 ==> idx >= Basis(sizes, k) && sizes[k] > 1
    ensures sizes[k] > 1 ==> Digit(sizes, Basis(sizes, k), k) == 1
  {
    var b, s := Basis(sizes, k), sizes[k];
    assert Digit(sizes, idx, k) == (idx / b) % s;
    assert Digit(sizes, b, k) == (b / b) % s;
    SmallQuotients(idx, b, s);
  }

  lemma SmallQuotients(a: nat, b: nat, s: nat)
    requires b >= 1 && s >= 1
    ensures a < b ==> (a / b) % s == 0
    ensures (a / b) % s >= 1 ==> a >= b && s > 1
    ensures s > 1 ==> (b / b) % s == 1
  {
    if a < b {
      DivModUnique(a, b, 0, a);
    }
    DivModUnique(b, b, 1, 0);
    if s > 1 {
      DivModUnique(1, s, 0, 1);
    }
  }

  /** Axis `k` reaches its last index at frame `(size - 1) * Basis(k)`. */
  lemma LastStep(sizes: seq<nat>, k: nat)
    requires Positive(sizes) && k < |sizes|
    ensures Digit(sizes, (sizes[k] - 1) * Basis(sizes, k), k) == sizes[k] - 1
  {
    var b, s := Basis(sizes, k), sizes[k];
    assert Digit(sizes, (s - 1) * b, k) == ((s - 1) * b / b) % s;
    TopQuotient(b, s);
  }

  lemma TopQuotient(b: nat, s: nat)
    requires b >= 1 && s >= 1
    ensures ((s - 1) * b / b) % s == s - 1
  {
    DivModUnique((s - 1) * b, b, s - 1, 0);
    DivModUnique(s - 1, s, 0, s - 1);
  }
}
