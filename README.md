# HigherOrderUtils and StreamUtils, modelled in Dafny

This project models two small Java utility classes and proves properties of the model.

- **`HigherOrderUtils`** has three parts.
  - The pipeline evaluator `zip`. It walks a list of named binary functions in order. Step `i` applies `bf[i]` to `args[i]` and `args[i + 1]` and writes the result back into `args[i + 1]`. It then returns the slot under the final cursor.
  - The four `NamedBiFunction<Double>` constants `add`, `subtract`, `multiply` and `divide`. `divide` throws on a zero divisor.
  - The combinator `FunctionComposition.composition`.
- **`StreamUtils`** has three operations.
  - `longest` and `least` are tie-break extremum selectors. Each is `stream().max(comparator).orElse(null)`, and the comparator encodes both the ordering and the `from_start` tie-break.
  - `capitalized` is an order-preserving filter.

Files:

- `exceptions.dfy`: module `Exceptions`. It defines the Java exceptions involved, with `OtherException` standing for any other unchecked exception an operation handed to `zip` may throw, and `Result` (a value or a thrown exception). It also defines `Option`, which models `Optional.orElse(null)`.
- `higher_order_utils.dfy`: module `HigherOrderUtils`.
  - `Zip` is a method over an `array<T>` that mutates the caller's buffer in place, as the Java code does.
  - `Zip` is proved against a closed-form specification: `ZipBuffer` gives the buffer after the call and `ZipResult` gives the value returned or the exception thrown.
  - Both are built on `Fold`, a left fold written independently of the loop. `Fold(a, bfs, j)` folds the first `j` operations starting from `a[0]`, taking the `j`-th operand from the original `a[j]`.
- `stream_utils.dfy`: module `StreamUtils`.
  - `StreamMax` models `Stream.max` as a sequential left reduction: the running best `b` is kept against the next element `x` exactly when `comparator(b, x) >= 0`.
  - The generic lemma `StreamMaxTieBreak` shows that, for every comparator shaped like those of `longest` and `least`, `StreamMax` returns the element at the one position `SelectedAt` characterises. That position holds an element no other element exceeds. With `from_start` it is the first such element; without it, the last.
  - `Longest` and `Least` are `StreamMax` with the comparators written exactly as in the source. Their lemmas are instances of the generic one.
  - `compareTo` is a parameter. `ComparableContract` states the three rules of Java's `Comparable` contract for it.

Error behaviour is modelled rather than excluded by preconditions.

- `zip` with too few operands throws `IndexOutOfBoundsException` from `args.get(++index)`. The slots already written stay written.
- An empty argument list throws at `args.get(0)`.
- An exception from an operation, such as `divide`'s `ArithmeticException`, propagates with no rollback.
- `capitalized` throws `StringIndexOutOfBoundsException` when it reaches an empty string.

Where the documentation and the code disagree, the model follows the code:

- The worked example in the doc comment of `zip` (HigherOrderUtils.java:69-76) says the last step `divide(6, 4)` yields `1`. With the `Double` constants the code computes `1.5`. `ZipDocExample` proves the buffer ends as `[1, 2, 6, 6, 1.5]` and that `zip` returns `1.5`.
- `least` is documented as returning the least element (StreamUtils.java:31, 38). The code returns the greatest (see Findings).
- The `@return` of `zip` (HigherOrderUtils.java:81-82) promises the item in the last index of `args`. The code returns `args[k]` for `k` operations (line 90), which is a middle slot when there are fewer than `|args| - 1` operations. `ZipChainsResults` proves the code's behaviour, and `ZipReturnsMiddleSlotExample` shows `[1, 2, 5]` with `[add]` returning `3` while the last slot holds `5`.
- `subtract` reports the name `"di"` (HigherOrderUtils.java:28). The model keeps that string.

## Model

| member | source | states |
|---|---|---|
| `HigherOrderUtils.OperationNames` | HigherOrderUtils.java:13-53 | The four constants report the names `"add"`, `"di"`, `"mult"` and `"div"`. |
| `HigherOrderUtils.SubtractUndoesAdd` | HigherOrderUtils.java:19-34 | `add` returns `x + y` and `subtract` returns `x - y`, and neither throws. Over the real-number model, subtracting `y` after adding `y` gives back the first operand. |
| `HigherOrderUtils.DivideUndoesMultiply` | HigherOrderUtils.java:43-61 | `multiply` returns `x * y` and never throws. Over the real-number model, dividing by a non-zero `y` after multiplying by `y` gives back the first operand. |
| `HigherOrderUtils.DivideFailsOnlyOnZero` | HigherOrderUtils.java:55-61 | `divide` throws exactly when the divisor is zero, and then throws `ArithmeticException("Division by zero")`. Otherwise it returns `x / y`, whose product with the divisor is the dividend. |
| `HigherOrderUtils.Zip` | HigherOrderUtils.java:84-91 | The in-place loop leaves `args` equal to `ZipBuffer` of the old contents. It returns or throws exactly `ZipResult`: the first exception an operation throws; else `IndexOutOfBoundsException(length)` when there are too few operands; else the last fold value. |
| `HigherOrderUtils.ZipFrame` | HigherOrderUtils.java:85-89 | `zip` keeps the length, never changes `args[0]`, and never changes a slot at an index greater than the number of operations. |
| `HigherOrderUtils.ZipSucceedsIff` | HigherOrderUtils.java:84-91 | `zip` returns normally exactly when there are fewer operations than operands and no operation throws. |
| `HigherOrderUtils.ZipChainsResults` | HigherOrderUtils.java:85-90 | When `zip` returns normally, each new `args[i + 1]` is `bf[i]` applied to the new `args[i]` and the old `args[i + 1]`. Slot `j` is the left fold of the first `j` operations from `args[0]`. The result is `args[k]` for `k` operations, which is the last slot exactly when `k` is one less than the number of operands. |
| `HigherOrderUtils.ZipNoOperations` | HigherOrderUtils.java:85-90 | With no operations and at least one operand, `args` is unchanged and `zip` returns `args[0]`. |
| `HigherOrderUtils.ZipTooFewOperands` | HigherOrderUtils.java:87 | With no more operands than operations (and no operation throwing), every step that fits runs and writes its slot. Then the access to `args[length]` throws `IndexOutOfBoundsException`. |
| `HigherOrderUtils.ZipThrowsAtStep` | HigherOrderUtils.java:86-88 | When the operation writing slot `f` throws, `zip` throws that exception. The slots before `f` keep their fold values (no rollback), and slot `f` and all later slots are unchanged. |
| `HigherOrderUtils.ZipDocExample` | HigherOrderUtils.java:69-76 | For `[1, 1, 3, 0, 4]` and `[add, multiply, add, divide]`, the buffer ends as `[1, 2, 6, 6, 1.5]` and the result is `1.5`. |
| `HigherOrderUtils.ZipDivideByZeroExample` | HigherOrderUtils.java:56-59 | For `[2, 3, 0, 7]` and `[multiply, divide, add]`, `divide` throws on the zero slot, after `multiply` has already written `6` into slot 1. |
| `HigherOrderUtils.ZipReturnsMiddleSlotExample` | HigherOrderUtils.java:81-90 | For `[1, 2, 5]` and `[add]`, the buffer ends as `[1, 3, 5]` and `zip` returns `3`, the slot after the one operation, not the last slot `5` the `@return` doc names. |
| `HigherOrderUtils.ZipDocExampleInPlace` | HigherOrderUtils.java:70-76 | The in-place method itself, applied to an array holding the documentation's example, is proved to leave `[1, 2, 6, 6, 1.5]` and return `1.5`. |
| `HigherOrderUtils.CompositionRunsFirstArgumentFirst` | HigherOrderUtils.java:98 | `composition(f, g)` applied to `x` is `g(f(x))`, so `f` runs first. |
| `HigherOrderUtils.CompositionAssociative` | HigherOrderUtils.java:98 | Composition is associative. |
| `StreamUtils.StreamMax` | StreamUtils.java:27 | `max(...).orElse(null)` is null exactly on empty input. Otherwise it is an element of the input. |
| `StreamUtils.StreamMaxTieBreak` | StreamUtils.java:27 | For any comparator that keeps the running best when it is greater, or when it ties and `from_start` holds, `max` returns the element at the selected position. That position has no element above it, and it is the first of its ties with `from_start` and the last otherwise. |
| `StreamUtils.SelectionIsUnique` | StreamUtils.java:20-22 | At most one position satisfies the tie-break characterisation, so the characterisation determines the result. |
| `StreamUtils.LongestIsLongest` | StreamUtils.java:23-27 | `longest` is null exactly on empty input. Otherwise it is an input string at least as long as every input string. |
| `StreamUtils.LongestTieBreak` | StreamUtils.java:20-27 | With `from_start`, `longest` returns the first string of maximal length. Without it, `longest` returns the last one. |
| `StreamUtils.LongestExample` | StreamUtils.java:27 | On `["Ok", "Way", "too"]` `longest` returns `"Way"` with `from_start` and `"too"` without it, and null on empty input. |
| `StreamUtils.LeastIsGreatest` | StreamUtils.java:42 | As written, `least` is null exactly on empty input. Otherwise it is an input element that no input element exceeds under `compareTo`: the greatest element. |
| `StreamUtils.LeastTieBreak` | StreamUtils.java:34-42 | With `from_start`, `least` returns the first of the `compareTo`-greatest elements. Without it, `least` returns the last one. |
| `StreamUtils.LeastReturnsGreatestExample` | StreamUtils.java:42 | On `[1, 2]` with `Integer.compareTo`, `least` returns `2` although `1` is smaller. |
| `StreamUtils.LeastTieBreakExample` | StreamUtils.java:34-42 | On `[3, 1, 3]`, with tags so that position is visible, `least` returns the first `3` with `from_start` and the second `3` without it. |
| `StreamUtils.LeastCorrectedIsLeast` | StreamUtils.java:30-39 | The corrected selector is null exactly on empty input. Otherwise it is an input element that exceeds no input element: the least element. |
| `StreamUtils.LeastCorrectedTieBreak` | StreamUtils.java:34-39 | With `from_start`, the corrected selector returns the first of the least elements. Without it, it returns the last one. |
| `StreamUtils.LeastCorrectedExample` | StreamUtils.java:30-39 | On `[1, 2]` the corrected selector returns `1`. |
| `StreamUtils.Capitalized` | StreamUtils.java:7-14 | `capitalized` throws `StringIndexOutOfBoundsException` exactly when the input holds an empty string. Otherwise its result is a subsequence of the input, in input order. Each string occurs in it as often as in the input if its first character equals that character upper-cased, and not at all otherwise. |

## Left out

- Both `main` methods (HigherOrderUtils.java:101-110, StreamUtils.java:58-69) are left out: they only print to the console.
- `flatten` (StreamUtils.java:54-56) is left out. It depends on arbitrary `toString()` of keys and values and on `HashMap` key-set iteration order, both of which are library behaviour with no fixed meaning.
- Java `Double` is modelled as `real`: rounding, infinities and NaN are not modelled.
- `DivideApply`: the zero check is `y == 0.0`. Java's `Double.equals(0d)` is false for `-0.0`, so the code divides by `-0.0`: a non-zero finite dividend gives an infinity, and a dividend of `±0.0` or NaN gives NaN. Reals have a single zero, so none of these cases is modelled.
- SubtractUndoesAdd: the round trip holds over the real model only. Under `Double` rounding it fails, for example `(1e-20 + 1.0) - 1.0` is `0.0`.
- DivideUndoesMultiply: the round trip holds over the real model only. Under `Double` rounding and overflow it fails, for example `(1e300 * 1e300) / 1e300` is `Infinity`.
- `String.toUpperCase` is locale-dependent library code. It is a parameter `toUpperCase: string -> string` of `Capitalized`, applied to the one-character prefix as in the source.
- Dafny's `char` is a Unicode scalar value, whereas Java strings count UTF-16 code units. Surrogate pairs are not modelled. This affects `Capitalized`, where `substring(0, 1)` takes the first code unit. It also affects `LongestComparator` and `Longest`, which compare `|w|` where Java compares `length()`: Java's `longest(["😀", "ab"], true)` sees a tie of length 2 and returns `"😀"`, while the model returns `"ab"`.
- `Comparable.compareTo` is a parameter. The lemmas about `least` assume only the contract `Comparable` documents (`ComparableContract`).
- Java `Collection` iteration order is modelled as a `seq`. Stream internals beyond the sequential left reduction of `max`, the order-preserving `filter` and `orElse(null)` are not modelled.
- `Zip`: the buffer is an `array`, which is always writable. So the model does not capture the `UnsupportedOperationException` that `args.set` (HigherOrderUtils.java:88) throws on an unmodifiable `List`, after the first operation has already run.
- Null elements and `NullPointerException` (for example `max` throwing when the selected element is null) are not modelled.
- `FunctionComposition` has one non-final instance field, initialised to `(f, g) -> g.compose(f)` (HigherOrderUtils.java:98). Nothing in the source reassigns it. The model is that initial value, the function `Composition`; reassigning the field is not modelled.
- `NamedBiFunction` is an interface. It is modelled as a datatype pairing the name with a function that returns a value or throws.

## Findings

| source | as written | input that shows it | evidently intended | confidence | as-written member | corrected member |
|---|---|---|---|---|---|---|
| StreamUtils.java:42 | `least` calls `max` with the natural `compareTo` order, not inverted, so it returns the greatest element | `[1, 2]` with `from_start = true` returns `2` | the least element (StreamUtils.java:31, 38), here `1`, with the same tie-break | high; not executed | `StreamUtils.LeastReturnsGreatestExample` | `StreamUtils.LeastCorrectedIsLeast` |
