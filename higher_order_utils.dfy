/**
  The pipeline evaluator `zip`, the named arithmetic operations it is driven with,
  and the function-composition combinator.
 */
module HigherOrderUtils {
  import opened Exceptions

  /** A binary operation together with the name it reports. `apply` may throw. */
  datatype NamedBiFunction<!T> = NamedBiFunction(name: string, apply: (T, T) -> Result<T>)

  /*
   * The four arithmetic constants. Java's `Double` is modelled by `real`.
   */

  function AddApply(x: real, y: real): Result<real> { Ok(x + y) }

  function SubtractApply(x: real, y: real): Result<real> { Ok(x - y) }

  function MultiplyApply(x: real, y: real): Result<real> { Ok(x * y) }

  /** Throws `ArithmeticException("Division by zero")` on a zero divisor. */
  function DivideApply(x: real, y: real): Result<real> {
    if y == 0.0 then Thrown(ArithmeticException("Division by zero")) else Ok(x / y)
  }

  const Add: NamedBiFunction<real> := NamedBiFunction("add", AddApply)

  const Subtract: NamedBiFunction<real> := NamedBiFunction("di", SubtractApply)

  const Multiply: NamedBiFunction<real> := NamedBiFunction("mult", MultiplyApply)

  const Divide: NamedBiFunction<real> := NamedBiFunction("div", DivideApply)

  /** The names the four constants report. */
  lemma OperationNames()
    ensures Add.name == "add" && Subtract.name == "di"
    ensures Multiply.name == "mult" && Divide.name == "div"
  {
  }

  /** `add` and `subtract` never throw and return the sum and the difference; over
      the real model `subtract` undoes `add`. */
  lemma SubtractUndoesAdd(x: real, y: real)
    ensures Add.apply(x, y) == Ok(x + y) && Subtract.apply(x, y) == Ok(x - y)
    ensures Subtract.apply(Add.apply(x, y).value, y) == Ok(x)
  {
  }

  /** `multiply` never throws and returns the product; over the real model `divide`
      undoes it for a non-zero factor. */
  lemma DivideUndoesMultiply(x: real, y: real)
    ensures Multiply.apply(x, y) == Ok(x * y)
    ensures y != 0.0 ==> Divide.apply(Multiply.apply(x, y).value, y) == Ok(x)
  {
    if y != 0.0 {
      assert Multiply.apply(x, y) == Ok(x * y);
      assert Divide.apply(x * y, y) == Ok((x * y) / y);
      assert (x * y) / y == x;
    }
  }

  /** `divide` throws exactly on a zero divisor; otherwise it returns the quotient. */
  lemma DivideFailsOnlyOnZero(x: real, y: real)
    ensures Divide.apply(x, y).Thrown? <==> y == 0.0
    ensures Divide.apply(x, y).Thrown? ==>
      Divide.apply(x, y).exception == ArithmeticException("Division by zero")
    ensures Divide.apply(x, y).Ok? ==> Divide.apply(x, y) == Ok(x / y)
    ensures Divide.apply(x, y).Ok? ==> Divide.apply(x, y).value * y == x
  {
  }

  /*
   * Specification of `zip`.
   *
   * Step `i` applies `bf[i]` to the slot the previous step wrote and to the slot
   * `i + 1` as it was before the call, so slot `j` ends up holding the left fold
   * of the first `j` operations.  `Fold` is that fold, written independently of
   * the in-place loop.
   */

  /** The left fold of the first `j` operations, starting from `a[0]` and taking
      the `j`-th operand from the original `a[j]`; once an operation throws, the
      fold carries that exception. */
  function Fold<T>(a: seq<T>, bfs: seq<NamedBiFunction<T>>, j: nat): Result<T>
    requires j < |a| && j <= |bfs|
  {
    if j == 0 then Ok(a[0])
    else
      match Fold(a, bfs, j - 1)
      case Ok(v) => bfs[j - 1].apply(v, a[j])
      case Thrown(e) => Thrown(e)
  }

  /** How many steps can run before an index goes out of range. */
  function Reach<T>(a: seq<T>, bfs: seq<NamedBiFunction<T>>): (m: nat)
    requires |a| > 0
    ensures m < |a| && m <= |bfs|
    ensures m == |bfs| || m == |a| - 1
  {
    if |bfs| < |a| then |bfs| else |a| - 1
  }

  /** Slot `j` after `zip`: its fold value if the step writing it completed,
      otherwise its original contents. */
  function Slot<T>(a: seq<T>, bfs: seq<NamedBiFunction<T>>, j: nat): T
    requires j < |a|
  {
    if j <= Reach(a, bfs) && Fold(a, bfs, j).Ok? then Fold(a, bfs, j).value else a[j]
  }

  /** The contents of `args` after `zip`, whether it returns or throws. The second
      `ensures` only unfolds the body, so that callers see each slot directly. */
  function ZipBuffer<T>(a: seq<T>, bfs: seq<NamedBiFunction<T>>): (b: seq<T>)
    ensures |b| == |a|
    ensures forall j :: 0 <= j < |a| ==> b[j] == Slot(a, bfs, j)
  {
    seq(|a|, j requires 0 <= j < |a| => Slot(a, bfs, j))
  }

  /** What `zip` returns or throws: the exception of the first operation that
      throws; otherwise an out-of-range access when there are too few operands;
      otherwise the last fold value. */
  function ZipResult<T>(a: seq<T>, bfs: seq<NamedBiFunction<T>>): Result<T> {
    if |a| == 0 then Thrown(IndexOutOfBoundsException(0))
    else
      var f := Fold(a, bfs, Reach(a, bfs));
      if f.Ok? && |bfs| >= |a| then Thrown(IndexOutOfBoundsException(|a|)) else f
  }

  /** Once the fold has thrown it stays at that exception. */
  lemma {:induction false} FoldStaysThrown<T>(a: seq<T>, bfs: seq<NamedBiFunction<T>>, j: nat, k: nat)
    requires j <= k < |a| && k <= |bfs|
    requires Fold(a, bfs, j).Thrown?
    ensures Fold(a, bfs, k) == Fold(a, bfs, j)
    decreases k - j
  {
    if j < k {
      FoldStaysThrown(a, bfs, j, k - 1);
    }
  }

  /** Every step up to `k` completed when step `k` has. */
  lemma FoldOkBefore<T>(a: seq<T>, bfs: seq<NamedBiFunction<T>>, j: nat, k: nat)
    requires j <= k < |a| && k <= |bfs|
    requires Fold(a, bfs, k).Ok?
    ensures Fold(a, bfs, j).Ok?
  {
    if Fold(a, bfs, j).Thrown? {
      FoldStaysThrown(a, bfs, j, k);
    }
  }

  /** The contents of `args` once the first `i` steps of `zip` have completed:
      the fold values up to slot `i`, the original contents after it. */
  ghost function Partial<T>(a: seq<T>, bfs: seq<NamedBiFunction<T>>, i: nat): (b: seq<T>)
    requires i < |a| && i <= |bfs| && Fold(a, bfs, i).Ok?
    ensures |b| == |a|
  {
    seq(|a|, j requires 0 <= j < |a| =>
      if j <= i then (FoldOkBefore(a, bfs, j, i); Fold(a, bfs, j).value) else a[j])
  }

  /** Before the first step nothing has changed. */
  lemma PartialStart<T>(a: seq<T>, bfs: seq<NamedBiFunction<T>>)
    requires |a| > 0
    ensures Fold(a, bfs, 0).Ok? && Partial(a, bfs, 0) == a
  {
  }

  /** Step `i` applies `bfs[i]` to slots `i` and `i + 1`; if it returns, storing the
      result into slot `i + 1` completes `i + 1` steps. */
  lemma PartialStep<T>(a: seq<T>, bfs: seq<NamedBiFunction<T>>, i: nat)
    requires i + 1 < |a| && i < |bfs| && Fold(a, bfs, i).Ok?
    ensures Fold(a, bfs, i + 1) == bfs[i].apply(Partial(a, bfs, i)[i], Partial(a, bfs, i)[i + 1])
    ensures Fold(a, bfs, i + 1).Ok? ==>
      Partial(a, bfs, i)[i + 1 := Fold(a, bfs, i + 1).value] == Partial(a, bfs, i + 1)
  {
    if Fold(a, bfs, i + 1).Ok? {
      forall j | 0 <= j <= i
        ensures Fold(a, bfs, j).Ok?
      {
        FoldOkBefore(a, bfs, j, i);
      }
    }
  }

  /** Where `zip` stops after completing `i` steps, because step `i` throws or no
      further step can run, the contents are final and so is the outcome. */
  lemma ZipStopsAfter<T>(a: seq<T>, bfs: seq<NamedBiFunction<T>>, i: nat)
    requires |a| > 0 && i <= Reach(a, bfs) && Fold(a, bfs, i).Ok?
    requires i < Reach(a, bfs) ==> Fold(a, bfs, i + 1).Thrown?
    ensures Partial(a, bfs, i) == ZipBuffer(a, bfs)
    ensures ZipResult(a, bfs) ==
      if i < Reach(a, bfs) then Fold(a, bfs, i + 1)
      else if |bfs| >= |a| then Thrown(IndexOutOfBoundsException(|a|))
      else Ok(Partial(a, bfs, i)[i])
  {
    var m := Reach(a, bfs);
    if i < m {
      forall k | i + 1 <= k <= m
        ensures Fold(a, bfs, k) == Fold(a, bfs, i + 1)
      {
        FoldStaysThrown(a, bfs, i + 1, k);
      }
    }
    forall j | 0 <= j <= i
      ensures Fold(a, bfs, j).Ok?
    {
      FoldOkBefore(a, bfs, j, i);
    }
    var b, z := Partial(a, bfs, i), ZipBuffer(a, bfs);
    forall j | 0 <= j < |a|
      ensures b[j] == z[j]
    {
      assert z[j] == Slot(a, bfs, j);
      if i < j <= m {
        assert Fold(a, bfs, j).Thrown?;
      }
    }
  }

  /**
    `zip` (HigherOrderUtils.java:84-91): walks the operations in order; step `i`
    computes `bifunctions[i](args[i], args[i + 1])` and stores it in `args[i + 1]`;
    returns the slot under the final cursor.  An exception from an operation or
    from an out-of-range access leaves the slots already written as they are.
   */
  method Zip<T>(args: array<T>, bifunctions: seq<NamedBiFunction<T>>) returns (r: Result<T>)
    modifies args
    ensures args[..] == ZipBuffer(old(args[..]), bifunctions)
    ensures r == ZipResult(old(args[..]), bifunctions)
  {
    ghost var a := args[..];
    if args.Length > 0 {
      PartialStart(a, bifunctions);
    }
    var index := 0;
    for i := 0 to |bifunctions|
      invariant index == i && |a| == args.Length
      invariant args.Length == 0 ==> i == 0 && a == []
      invariant args.Length > 0 ==>
        i < args.Length && Fold(a, bifunctions, i).Ok? && args[..] == Partial(a, bifunctions, i)
    {
      if index >= args.Length {
        return Thrown(IndexOutOfBoundsException(index));
      }
      var left := args[index];
      index := index + 1;
      if index >= args.Length {
        ZipStopsAfter(a, bifunctions, i);
        return Thrown(IndexOutOfBoundsException(index));
      }
      var result := bifunctions[i].apply(left, args[index]);
      PartialStep(a, bifunctions, i);
      if result.Thrown? {
        ZipStopsAfter(a, bifunctions, i);
        return result;
      }
      args[index] := result.value;
    }
    if index >= args.Length {
      return Thrown(IndexOutOfBoundsException(index));
    }
    ZipStopsAfter(a, bifunctions, index);
    r := Ok(args[index]);
  }

  /*
   * Properties of `zip`, stated on its specification.
   */

  /** `zip` keeps the length, never writes slot 0, and never writes a slot past
      the number of operations. */
  lemma ZipFrame<T>(a: seq<T>, bfs: seq<NamedBiFunction<T>>)
    ensures |ZipBuffer(a, bfs)| == |a|
    ensures |a| > 0 ==> ZipBuffer(a, bfs)[0] == a[0]
    ensures forall j :: |bfs| < j < |a| ==> ZipBuffer(a, bfs)[j] == a[j]
  {
  }

  /** `zip` completes exactly when there is an operand for every operation and no
      operation throws. */
  lemma ZipSucceedsIff<T>(a: seq<T>, bfs: seq<NamedBiFunction<T>>)
    ensures ZipResult(a, bfs).Ok? <==> |bfs| < |a| && Fold(a, bfs, |bfs|).Ok?
  {
  }

  /** When `zip` completes, each written slot is the corresponding operation applied
      to the slot before it (as written) and the slot's original value, every slot up
      to the last operation holds its fold value, and the result is the slot under
      the final cursor — the last slot exactly when there is one operation fewer than
      operands. */
  lemma {:induction false} ZipChainsResults<T>(a: seq<T>, bfs: seq<NamedBiFunction<T>>)
    requires ZipResult(a, bfs).Ok?
    ensures |bfs| < |a|
    ensures forall i :: 0 <= i < |bfs| ==>
      bfs[i].apply(ZipBuffer(a, bfs)[i], a[i + 1]) == Ok(ZipBuffer(a, bfs)[i + 1])
    ensures forall j :: 0 <= j <= |bfs| ==> Fold(a, bfs, j) == Ok(ZipBuffer(a, bfs)[j])
    ensures ZipResult(a, bfs) == Ok(ZipBuffer(a, bfs)[|bfs|])
    ensures |bfs| == |a| - 1 ==> ZipResult(a, bfs) == Ok(ZipBuffer(a, bfs)[|a| - 1])
  {
    ZipSucceedsIff(a, bfs);
    var b := ZipBuffer(a, bfs);
    forall j | 0 <= j <= |bfs|
      ensures Fold(a, bfs, j) == Ok(b[j])
    {
      FoldOkBefore(a, bfs, j, |bfs|);
    }
    forall i | 0 <= i < |bfs|
      ensures bfs[i].apply(b[i], a[i + 1]) == Ok(b[i + 1])
    {
      assert Fold(a, bfs, i) == Ok(b[i]);
    }
  }

  /** With no operations `zip` changes nothing and returns `args[0]`. */
  lemma ZipNoOperations<T>(a: seq<T>)
    requires |a| >= 1
    ensures ZipBuffer(a, []) == a
    ensures ZipResult(a, []) == Ok(a[0])
  {
  }

  /** Too few operands: every step that fits runs and writes its slot, then the
      access to `args[|args|]` throws. */
  lemma ZipTooFewOperands<T>(a: seq<T>, bfs: seq<NamedBiFunction<T>>)
    requires |a| <= |bfs|
    requires |a| > 0 ==> Fold(a, bfs, |a| - 1).Ok?
    ensures ZipResult(a, bfs) == Thrown(IndexOutOfBoundsException(|a|))
    ensures forall j :: 0 <= j < |a| ==> Fold(a, bfs, j) == Ok(ZipBuffer(a, bfs)[j])
  {
    forall j | 0 <= j < |a|
      ensures Fold(a, bfs, j) == Ok(ZipBuffer(a, bfs)[j])
    {
      FoldOkBefore(a, bfs, j, |a| - 1);
    }
  }

  /** An operation that throws at step `f - 1` (writing slot `f`): `zip` throws that
      exception, the slots before `f` keep what earlier steps wrote (no rollback),
      and slot `f` and everything after it are unchanged. */
  lemma {:induction false} ZipThrowsAtStep<T>(a: seq<T>, bfs: seq<NamedBiFunction<T>>, f: nat)
    requires 0 < f < |a| && f <= |bfs|
    requires Fold(a, bfs, f - 1).Ok? && Fold(a, bfs, f).Thrown?
    ensures ZipResult(a, bfs) == bfs[f - 1].apply(ZipBuffer(a, bfs)[f - 1], a[f])
    ensures forall j :: 0 <= j < f ==> Fold(a, bfs, j) == Ok(ZipBuffer(a, bfs)[j])
    ensures forall j :: f <= j < |a| ==> ZipBuffer(a, bfs)[j] == a[j]
  {
    var m := Reach(a, bfs);
    FoldStaysThrown(a, bfs, f, m);
    forall j | 0 <= j < f
      ensures Fold(a, bfs, j) == Ok(ZipBuffer(a, bfs)[j])
    {
      FoldOkBefore(a, bfs, j, f - 1);
    }
    forall j | f <= j <= m
      ensures Fold(a, bfs, j).Thrown?
    {
      FoldStaysThrown(a, bfs, f, j);
    }
  }

  /** The worked example of the documentation, evaluated with the arithmetic constants:
      `divide(6, 4)` is 1.5, so the last slot and the result are 1.5. */
  lemma ZipDocExample()
    ensures ZipBuffer([1.0, 1.0, 3.0, 0.0, 4.0], [Add, Multiply, Add, Divide])
         == [1.0, 2.0, 6.0, 6.0, 1.5]
    ensures ZipResult([1.0, 1.0, 3.0, 0.0, 4.0], [Add, Multiply, Add, Divide]) == Ok(1.5)
  {
    var a, bfs := [1.0, 1.0, 3.0, 0.0, 4.0], [Add, Multiply, Add, Divide];
    assert Fold(a, bfs, 1) == Ok(2.0);
    assert Fold(a, bfs, 2) == Ok(6.0);
    assert Fold(a, bfs, 3) == Ok(6.0);
    assert Fold(a, bfs, 4) == Ok(1.5);
  }

  /** A zero divisor in the middle of a pipeline: `multiply` has already written
      slot 1 when `divide` throws. */
  lemma ZipDivideByZeroExample()
    ensures ZipBuffer([2.0, 3.0, 0.0, 7.0], [Multiply, Divide, Add]) == [2.0, 6.0, 0.0, 7.0]
    ensures ZipResult([2.0, 3.0, 0.0, 7.0], [Multiply, Divide, Add])
         == Thrown(ArithmeticException("Division by zero"))
  {
    var a, bfs := [2.0, 3.0, 0.0, 7.0], [Multiply, Divide, Add];
    assert Fold(a, bfs, 1) == Ok(6.0);
    assert Fold(a, bfs, 2) == Thrown(ArithmeticException("Division by zero"));
    assert Fold(a, bfs, 3) == Thrown(ArithmeticException("Division by zero"));
  }

  /** With fewer operations than `|args| - 1`, `zip` returns a middle slot, not the
      last one: here slot 1 holds `1 + 2 = 3` while the last slot keeps `5`. */
  lemma ZipReturnsMiddleSlotExample()
    ensures ZipBuffer([1.0, 2.0, 5.0], [Add]) == [1.0, 3.0, 5.0]
    ensures ZipResult([1.0, 2.0, 5.0], [Add]) == Ok(3.0)
    ensures ZipResult([1.0, 2.0, 5.0], [Add]).value != ZipBuffer([1.0, 2.0, 5.0], [Add])[2]
  {
    assert Fold([1.0, 2.0, 5.0], [Add], 1) == Ok(3.0);
  }

  /** The in-place method itself on the documentation's example. */
  method ZipDocExampleInPlace() returns (r: Result<real>, after: seq<real>)
    ensures after == [1.0, 2.0, 6.0, 6.0, 1.5] && r == Ok(1.5)
  {
    var args := new real[5];
    args[0], args[1], args[2], args[3], args[4] := 1.0, 1.0, 3.0, 0.0, 4.0;
    assert args[..] == [1.0, 1.0, 3.0, 0.0, 4.0];
    r := Zip(args, [Add, Multiply, Add, Divide]);
    ZipDocExample();
    after := args[..];
  }

  /*
   * FunctionComposition.composition (HigherOrderUtils.java:97-99):
   * `(f, g) -> g.compose(f)`.
   */

  function Composition<T, U, R>(f: T -> U, g: U -> R): (T -> R) {
    x => g(f(x))
  }

  /** The composite runs `f` first and feeds its result to `g`. */
  lemma CompositionRunsFirstArgumentFirst<T, U, R>(f: T -> U, g: U -> R, x: T)
    ensures Composition(f, g)(x) == g(f(x))
  {
  }

  /** Composition is associative. */
  lemma CompositionAssociative<T, U, V, R>(f: T -> U, g: U -> V, h: V -> R, x: T)
    ensures Composition(Composition(f, g), h)(x) == Composition(f, Composition(g, h))(x)
  {
  }
}
