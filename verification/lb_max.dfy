/** The composite lower bound: a list of lower-bound calculators, each an
    opaque function of the matrix, whose combined bound is the largest of
    their values and never less than zero. */
module LbMax {
  import CoverMatrix

  /** A calculator is seen only through the value it gives for a matrix. */
  type Calc = CoverMatrix.Matrix -> int

  datatype LbMax = LbMax(calcs: seq<Calc>)

  /** A fresh bound has no calculators. */
  function Empty(): (lb: LbMax)
    ensures |lb.calcs| == 0
  {
    LbMax([])
  }

  /** `add_calc`: the calculator goes at the end of the list; the earlier ones
      keep their order. */
  function AddCalc(lb: LbMax, c: Calc): (r: LbMax)
    ensures |r.calcs| == |lb.calcs| + 1
    ensures forall i :: 0 <= i < |lb.calcs| ==> r.calcs[i] == lb.calcs[i]
    ensures r.calcs[|lb.calcs|] == c
  {
    LbMax(lb.calcs + [c])
  }

  /** The values the calculators give for `x`, in list order. */
  function Values(calcs: seq<Calc>, x: CoverMatrix.Matrix): (vs: seq<int>)
    ensures |vs| == |calcs|
    ensures forall i :: 0 <= i < |calcs| ==> vs[i] == calcs[i](x)
  {
    seq(|calcs|, i requires 0 <= i < |calcs| => calcs[i](x))
  }

  /** The reference value: the largest of `vs` and zero.  It dominates every
      value, is never negative, and is zero or one of the values. */
  function MaxOrZero(vs: seq<int>): (v: int)
    ensures v >= 0
    ensures forall i :: 0 <= i < |vs| ==> vs[i] <= v
    ensures v == 0 || exists i :: 0 <= i < |vs| && vs[i] == v
  {
    if vs == [] then 0
    else
      var rest := MaxOrZero(vs[..|vs| - 1]);
      var last := vs[|vs| - 1];
      if rest < last then last else rest
  }

  /** `operator()`: starts from zero and raises the running maximum whenever a
      calculator gives a larger value. */
  method Bound(lb: LbMax, x: CoverMatrix.Matrix) returns (v: int)
    ensures v >= 0
    ensures forall i :: 0 <= i < |lb.calcs| ==> lb.calcs[i](x) <= v
    ensures v == 0 || exists i :: 0 <= i < |lb.calcs| && lb.calcs[i](x) == v
    ensures |lb.calcs| == 0 ==> v == 0
    ensures v == MaxOrZero(Values(lb.calcs, x))
  {
    var vs := Values(lb.calcs, x);
    v := 0;
    var k := 0;
    while k < |lb.calcs|
      invariant 0 <= k <= |lb.calcs|
      invariant v == MaxOrZero(vs[..k])
    {
      var val := lb.calcs[k](x);
      MaxOrZeroStep(vs, k);
      if v < val {
        v := val;
      }
      k := k + 1;
    }
    assert vs[..k] == vs;
  }

  /** The running maximum after one more value. */
  lemma MaxOrZeroStep(vs: seq<int>, k: nat)
    requires k < |vs|
    ensures MaxOrZero(vs[..k + 1])
         == (if MaxOrZero(vs[..k]) < vs[k] then vs[k] else MaxOrZero(vs[..k]))
  {
    assert vs[..k + 1][..k] == vs[..k];
  }

  /** Admissibility is preserved: when every value is at most some
      non-negative `opt`, so is their maximum. */
  lemma {:induction false} MaxOrZeroAdmissible(vs: seq<int>, opt: int)
    requires opt >= 0
    requires forall i :: 0 <= i < |vs| ==> vs[i] <= opt
    ensures MaxOrZero(vs) <= opt
  {
    if vs != [] {
      var front := vs[..|vs| - 1];
      assert forall i :: 0 <= i < |front| ==> front[i] == vs[i];
      MaxOrZeroAdmissible(front, opt);
    }
  }

  /** The composite of lower bounds is a lower bound: when every calculator
      stays at or below the optimum cost `opt` of `x` (a non-negative
      number), the composite bound does too. */
  lemma BoundAdmissible(lb: LbMax, x: CoverMatrix.Matrix, opt: int)
    requires opt >= 0
    requires forall i :: 0 <= i < |lb.calcs| ==> lb.calcs[i](x) <= opt
    ensures MaxOrZero(Values(lb.calcs, x)) <= opt
  {
    MaxOrZeroAdmissible(Values(lb.calcs, x), opt);
  }

  /** Adding a calculator combines its value with the old bound by `max`. */
  lemma {:induction false} AddCalcBound(lb: LbMax, c: Calc, x: CoverMatrix.Matrix)
    ensures MaxOrZero(Values(AddCalc(lb, c).calcs, x))
         == (if MaxOrZero(Values(lb.calcs, x)) < c(x) then c(x) else MaxOrZero(Values(lb.calcs, x)))
  {
    var vs := Values(AddCalc(lb, c).calcs, x);
    assert vs[..|vs| - 1] == Values(lb.calcs, x);
  }
}
