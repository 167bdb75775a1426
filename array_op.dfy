/** The toy array operation of the argparse tutorial: `afunc(arr1, arr2,
    mode="+", pow=2)` checks that the two arrays have the same shape and that
    the exponent is an int, then adds or subtracts them elementwise and raises
    every element to the exponent.

    Arrays are one-dimensional and modelled as `seq<int>`, so "same shape"
    is "same length". The two assertion failures and the ValueError are the
    cases of `AfuncError`. */
module ArrayOp {
  import opened Wrappers

  /** The two operators the mode string can select. */
  datatype Op = Plus | Minus

  /** The `pow` argument as Python sees it: an int (bools included, as
      `isinstance(True, int)` holds) or any other object. */
  datatype PowArg = IntPow(n: int) | OtherPow

  /** `assert ... "size mismatch"`, `assert ... "pow should be type int"`
      and `raise ValueError(...)`, in that order. */
  datatype AfuncError = SizeMismatch | PowNotInt | UnknownMode(mode: string)

  /** The operator named by `mode`; only "+" and "-" name one. */
  function ParseMode(mode: string): (op: Option<Op>)
    ensures op == Some(Plus) <==> mode == "+"
    ensures op == Some(Minus) <==> mode == "-"
  {
    if mode == "+" then Some(Plus)
    else if mode == "-" then Some(Minus)
    else None
  }

  function Apply(op: Op, x: int, y: int): int {
    match op
    case Plus => x + y
    case Minus => x - y
  }

  /** `b ** e` on integers, with `0 ** 0 == 1` as in numpy. The result is
      zero only for a zero base and a positive exponent, an even power is
      never negative, and an odd power has the sign of its base. */
  function Power(b: int, e: nat): (r: int)
    ensures r == 0 <==> b == 0 && e > 0
    ensures e % 2 == 0 ==> r >= 0
    ensures e % 2 == 1 ==> (r < 0 <==> b < 0)
  {
    if e == 0 then 1 else b * Power(b, e - 1)
  }

  /** numpy's elementwise `arr1 + arr2` or `arr1 - arr2`. */
  function Combine(op: Op, a: seq<int>, b: seq<int>): (r: seq<int>)
    requires |a| == |b|
    ensures |r| == |a|
    ensures forall i :: 0 <= i < |r| ==> r[i] == Apply(op, a[i], b[i])
  {
    if a == [] then [] else [Apply(op, a[0], b[0])] + Combine(op, a[1..], b[1..])
  }

  /** numpy's elementwise `result ** pow`. */
  function PowerAll(xs: seq<int>, e: nat): (r: seq<int>)
    ensures |r| == |xs|
    ensures forall i :: 0 <= i < |r| ==> r[i] == Power(xs[i], e)
  {
    if xs == [] then [] else [Power(xs[0], e)] + PowerAll(xs[1..], e)
  }

  /** afunc itself. The shape check comes first, then the type of `pow`,
      then the mode; on success every element is `(a[i] op b[i]) ** pow`. */
  function Afunc(arr1: seq<int>, arr2: seq<int>, mode: string := "+", pow: PowArg := IntPow(2))
    : (r: Result<seq<int>, AfuncError>)
    requires pow.IntPow? ==> pow.n >= 0
    ensures r == Failure(SizeMismatch) <==> |arr1| != |arr2|
    ensures r == Failure(PowNotInt) <==> |arr1| == |arr2| && pow.OtherPow?
    ensures r == Failure(UnknownMode(mode)) <==>
              |arr1| == |arr2| && pow.IntPow? && mode != "+" && mode != "-"
    ensures r.Success? <==> |arr1| == |arr2| && pow.IntPow? && (mode == "+" || mode == "-")
    ensures r.Success? ==> |r.value| == |arr1| == |arr2|
    ensures r.Success? && mode == "+" ==>
              forall i :: 0 <= i < |r.value| ==> r.value[i] == Power(arr1[i] + arr2[i], pow.n)
    ensures r.Success? && mode == "-" ==>
              forall i :: 0 <= i < |r.value| ==> r.value[i] == Power(arr1[i] - arr2[i], pow.n)
  {
    if |arr1| != |arr2| then Failure(SizeMismatch)
    else if !pow.IntPow? then Failure(PowNotInt)
    else
      match ParseMode(mode)
      case None => Failure(UnknownMode(mode))
      case Some(op) => Success(PowerAll(Combine(op, arr1, arr2), pow.n))
  }

  /** With the default arguments, afunc squares the elementwise sum. */
  lemma DefaultIsSquaredSum(a: seq<int>, b: seq<int>)
    requires |a| == |b|
    ensures Afunc(a, b).Success?
    ensures forall i :: 0 <= i < |a| ==> Afunc(a, b).value[i] == (a[i] + b[i]) * (a[i] + b[i])
  {
    forall i | 0 <= i < |a|
      ensures Afunc(a, b).value[i] == (a[i] + b[i]) * (a[i] + b[i])
    {
      PowerTwo(a[i] + b[i]);
    }
  }

  lemma PowerTwo(x: int)
    ensures Power(x, 2) == x * x
  {
    assert Power(x, 1) == x;
  }

  /** Negating the base keeps an even power and negates an odd one. */
  lemma {:induction false} PowerOfNegation(x: int, e: nat)
    ensures Power(-x, e) == if e % 2 == 0 then Power(x, e) else -Power(x, e)
  {
    if e > 0 {
      PowerOfNegation(x, e - 1);
    }
  }

  /** Mode "+" does not depend on the order of the arrays. */
  lemma {:induction false} PlusIsSymmetric(a: seq<int>, b: seq<int>, pow: PowArg)
    requires pow.IntPow? ==> pow.n >= 0
    ensures Afunc(a, b, "+", pow) == Afunc(b, a, "+", pow)
  {
    if |a| == |b| && pow.IntPow? {
      var r1, r2 := Afunc(a, b, "+", pow).value, Afunc(b, a, "+", pow).value;
      forall i | 0 <= i < |r1| ensures r1[i] == r2[i] {
        assert a[i] + b[i] == b[i] + a[i];
      }
      assert r1 == r2;
    }
  }

  /** Mode "-" with an even exponent does not depend on the order of the
      arrays; with an odd exponent swapping them negates every element. */
  lemma MinusUnderSwap(a: seq<int>, b: seq<int>, n: nat)
    requires |a| == |b|
    ensures Afunc(a, b, "-", IntPow(n)).Success? && Afunc(b, a, "-", IntPow(n)).Success?
    ensures n % 2 == 0 ==> Afunc(a, b, "-", IntPow(n)) == Afunc(b, a, "-", IntPow(n))
    ensures n % 2 == 1 ==>
              forall i :: 0 <= i < |a| ==>
                Afunc(a, b, "-", IntPow(n)).value[i] == -Afunc(b, a, "-", IntPow(n)).value[i]
  {
    var r1, r2 := Afunc(a, b, "-", IntPow(n)).value, Afunc(b, a, "-", IntPow(n)).value;
    forall i | 0 <= i < |a|
      ensures r1[i] == if n % 2 == 0 then r2[i] else -r2[i]
    {
      assert a[i] - b[i] == -(b[i] - a[i]);
      PowerOfNegation(b[i] - a[i], n);
    }
    if n % 2 == 0 {
      assert r1 == r2;
    }
  }

  /** Exponent 1 leaves the plain elementwise sum or difference. */
  lemma PowerOneIsPlain(a: seq<int>, b: seq<int>, mode: string)
    requires |a| == |b| && (mode == "+" || mode == "-")
    ensures Afunc(a, b, mode, IntPow(1)).Success?
    ensures forall i :: 0 <= i < |a| ==>
              Afunc(a, b, mode, IntPow(1)).value[i] == if mode == "+" then a[i] + b[i] else a[i] - b[i]
  {
    forall i | 0 <= i < |a|
      ensures Afunc(a, b, mode, IntPow(1)).value[i] == if mode == "+" then a[i] + b[i] else a[i] - b[i]
    {
      var x := if mode == "+" then a[i] + b[i] else a[i] - b[i];
      assert Power(x, 1) == x * Power(x, 0);
    }
  }
}
