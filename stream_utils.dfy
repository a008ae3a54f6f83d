/**
  The stream utilities `capitalized`, `longest` and `least`.  `longest` and `least`
  are both `Stream.max` over a comparator of one shape: order by a comparison, and
  let the `from_start` flag decide whether a tie keeps the running best.
 */
module StreamUtils {
  import opened Exceptions

  /*
   * Stream.max as a sequential left reduction.
   */

  /** Reduces `rest` into the running best: against the next element `x` the best
      `b` is kept exactly when `comparator(b, x) >= 0`, otherwise `x` takes over. */
  function Reduce<T>(best: T, rest: seq<T>, comparator: (T, T) -> int): (r: T)
    ensures r == best || r in rest
    decreases |rest|
  {
    if rest == [] then best
    else Reduce(if comparator(best, rest[0]) >= 0 then best else rest[0], rest[1..], comparator)
  }

  /** One step of the reduction over a suffix of `s`. */
  lemma ReduceStep<T>(best: T, s: seq<T>, n: nat, comparator: (T, T) -> int)
    requires n <= |s|
    ensures n == |s| ==> Reduce(best, s[n..], comparator) == best
    ensures n < |s| ==>
      var next := if comparator(best, s[n]) >= 0 then best else s[n];
      Reduce(best, s[n..], comparator) == Reduce(next, s[n + 1..], comparator)
  {
    if n < |s| {
      assert s[n..][1..] == s[n + 1..];
    }
  }

  /** `stream().max(comparator).orElse(null)`. */
  function StreamMax<T>(s: seq<T>, comparator: (T, T) -> int): (r: Option<T>)
    ensures r.None? <==> s == []
    ensures r.Some? ==> r.value in s
  {
    if s == [] then None else Some(Reduce(s[0], s[1..], comparator))
  }

  /*
   * Orderings.
   */

  function Sign(n: int): int {
    if n > 0 then 1 else if n < 0 then -1 else 0
  }

  /** The contract `Comparable.compareTo` promises: the sign flips with the
      operands, "greater than" is transitive, and comparing equal means comparing
      alike against everything else. */
  ghost predicate ComparableContract<T(!new)>(cmp: (T, T) -> int) {
    (forall x, y :: Sign(cmp(x, y)) == -Sign(cmp(y, x))) &&
    (forall x, y, z :: cmp(x, y) > 0 && cmp(y, z) > 0 ==> cmp(x, z) > 0) &&
    (forall x, y, z :: cmp(x, y) == 0 ==> Sign(cmp(x, z)) == Sign(cmp(y, z)))
  }

  /** "At most" is transitive under the contract. */
  lemma AtMostTransitive<T(!new)>(cmp: (T, T) -> int, x: T, y: T, z: T)
    requires ComparableContract(cmp)
    requires cmp(x, y) <= 0 && cmp(y, z) <= 0
    ensures cmp(x, z) <= 0
  {
    assert Sign(cmp(x, y)) == -Sign(cmp(y, x));
    assert Sign(cmp(y, z)) == -Sign(cmp(z, y));
    assert Sign(cmp(x, z)) == -Sign(cmp(z, x));
    if cmp(x, y) == 0 {
      assert Sign(cmp(x, z)) == Sign(cmp(y, z));
    } else if cmp(y, z) == 0 {
      assert Sign(cmp(y, x)) == Sign(cmp(z, x));
    } else {
      assert cmp(z, y) > 0 && cmp(y, x) > 0;
    }
  }

  /** "At most" followed by "below" gives "below". */
  lemma AtMostThenBelow<T(!new)>(cmp: (T, T) -> int, x: T, y: T, z: T)
    requires ComparableContract(cmp)
    requires cmp(x, y) <= 0 && cmp(y, z) < 0
    ensures cmp(x, z) < 0
  {
    assert Sign(cmp(y, z)) == -Sign(cmp(z, y));
    assert Sign(cmp(x, z)) == -Sign(cmp(z, x));
    if cmp(x, z) >= 0 {
      AtMostTransitive(cmp, z, x, y);
    }
  }

  /** The comparator a tie-break selector hands to `Stream.max`: it keeps the running
      best `b` against `x` when `b` is greater, or when they tie and `fromStart`. */
  ghost predicate Encodes<T(!new)>(comparator: (T, T) -> int, cmp: (T, T) -> int, fromStart: bool) {
    forall b, x :: comparator(b, x) >= 0 <==> cmp(b, x) > 0 || (cmp(b, x) == 0 && fromStart)
  }

  /** `s[i]` is the element a tie-break selector picks from the first `n` elements:
      nothing there is greater, and it is the first (`fromStart`) or the last of the
      ones it ties with. */
  ghost predicate SelectedAt<T>(s: seq<T>, cmp: (T, T) -> int, fromStart: bool, i: int, n: int) {
    0 <= i < n <= |s| &&
    (forall j :: 0 <= j < n ==> cmp(s[j], s[i]) <= 0) &&
    (fromStart ==> forall j :: 0 <= j < i ==> cmp(s[j], s[i]) < 0) &&
    (!fromStart ==> forall j :: i < j < n ==> cmp(s[j], s[i]) < 0)
  }

  /** A next element that does not beat the selected one leaves it selected. */
  lemma KeepStaysSelected<T(!new)>(s: seq<T>, cmp: (T, T) -> int, fromStart: bool, i: int, n: int)
    requires ComparableContract(cmp) && SelectedAt(s, cmp, fromStart, i, n) && n < |s|
    requires cmp(s[i], s[n]) > 0 || (cmp(s[i], s[n]) == 0 && fromStart)
    ensures SelectedAt(s, cmp, fromStart, i, n + 1)
  {
    assert Sign(cmp(s[i], s[n])) == -Sign(cmp(s[n], s[i]));
  }

  /** A next element that beats the selected one (or ties with it, when the later
      element is preferred) becomes the selected one. */
  lemma NextBecomesSelected<T(!new)>(s: seq<T>, cmp: (T, T) -> int, fromStart: bool, i: int, n: int)
    requires ComparableContract(cmp) && SelectedAt(s, cmp, fromStart, i, n) && n < |s|
    requires !(cmp(s[i], s[n]) > 0 || (cmp(s[i], s[n]) == 0 && fromStart))
    ensures SelectedAt(s, cmp, fromStart, n, n + 1)
  {
    var x := s[n];
    assert cmp(s[i], x) <= 0;
    forall j | 0 <= j < n
      ensures cmp(s[j], x) <= 0
      ensures fromStart ==> cmp(s[j], x) < 0
    {
      AtMostTransitive(cmp, s[j], s[i], x);
      if fromStart {
        AtMostThenBelow(cmp, s[j], s[i], x);
      }
    }
    assert Sign(cmp(x, x)) == -Sign(cmp(x, x));
  }

  /** The position the reduction of `s[n..]` into the running best `s[i]` ends at. */
  ghost function ReduceIndex<T>(s: seq<T>, comparator: (T, T) -> int, i: nat, n: nat): (k: nat)
    requires i < n <= |s|
    ensures k < |s|
    decreases |s| - n
  {
    if n == |s| then i
    else ReduceIndex(s, comparator, if comparator(s[i], s[n]) >= 0 then i else n, n + 1)
  }

  /** The reduction returns the element at `ReduceIndex`. */
  lemma {:induction false} ReduceReturnsAt<T>(s: seq<T>, comparator: (T, T) -> int, i: nat, n: nat)
    requires i < n <= |s|
    ensures Reduce(s[i], s[n..], comparator) == s[ReduceIndex(s, comparator, i, n)]
    decreases |s| - n
  {
    ReduceStep(s[i], s, n, comparator);
    if n < |s| {
      ReduceReturnsAt(s, comparator, if comparator(s[i], s[n]) >= 0 then i else n, n + 1);
    }
  }

  /** One step of the reduction keeps the selection invariant. */
  lemma SelectStep<T(!new)>(s: seq<T>, comparator: (T, T) -> int, cmp: (T, T) -> int,
                            fromStart: bool, i: int, n: int)
    requires ComparableContract(cmp) && Encodes(comparator, cmp, fromStart)
    requires SelectedAt(s, cmp, fromStart, i, n) && n < |s|
    ensures SelectedAt(s, cmp, fromStart, if comparator(s[i], s[n]) >= 0 then i else n, n + 1)
  {
    if comparator(s[i], s[n]) >= 0 {
      KeepStaysSelected(s, cmp, fromStart, i, n);
    } else {
      NextBecomesSelected(s, cmp, fromStart, i, n);
    }
  }

  /** Every step of the reduction over `s` keeps the selection invariant. */
  ghost predicate StepsSelect<T>(s: seq<T>, comparator: (T, T) -> int, cmp: (T, T) -> int, fromStart: bool) {
    forall i, n :: SelectedAt(s, cmp, fromStart, i, n) && n < |s| ==>
      SelectedAt(s, cmp, fromStart, if comparator(s[i], s[n]) >= 0 then i else n, n + 1)
  }

  lemma StepsSelectHold<T(!new)>(s: seq<T>, comparator: (T, T) -> int, cmp: (T, T) -> int, fromStart: bool)
    requires ComparableContract(cmp) && Encodes(comparator, cmp, fromStart)
    ensures StepsSelect(s, comparator, cmp, fromStart)
  {
    forall i, n | SelectedAt(s, cmp, fromStart, i, n) && n < |s|
      ensures SelectedAt(s, cmp, fromStart, if comparator(s[i], s[n]) >= 0 then i else n, n + 1)
    {
      SelectStep(s, comparator, cmp, fromStart, i, n);
    }
  }

  /** Reducing the rest of `s` into the element selected from its first `n`
      elements ends at the element selected from all of `s`. */
  lemma {:induction false} ReduceSelects<T>(s: seq<T>, comparator: (T, T) -> int,
                                           cmp: (T, T) -> int, fromStart: bool, i: nat, n: nat)
    requires StepsSelect(s, comparator, cmp, fromStart)
    requires SelectedAt(s, cmp, fromStart, i, n)
    ensures SelectedAt(s, cmp, fromStart, ReduceIndex(s, comparator, i, n), |s|)
    decreases |s| - n
  {
    if n < |s| {
      ReduceSelects(s, comparator, cmp, fromStart, if comparator(s[i], s[n]) >= 0 then i else n, n + 1);
    }
  }

  /** `Stream.max` with a tie-break comparator picks the selected element. */
  lemma StreamMaxSelects<T(!new)>(s: seq<T>, comparator: (T, T) -> int, cmp: (T, T) -> int, fromStart: bool)
    returns (i: int)
    requires ComparableContract(cmp) && Encodes(comparator, cmp, fromStart)
    requires s != []
    ensures SelectedAt(s, cmp, fromStart, i, |s|)
    ensures StreamMax(s, comparator) == Some(s[i])
  {
    assert Sign(cmp(s[0], s[0])) == -Sign(cmp(s[0], s[0]));
    i := ReduceIndex(s, comparator, 0, 1);
    StepsSelectHold(s, comparator, cmp, fromStart);
    ReduceSelects(s, comparator, cmp, fromStart, 0, 1);
    ReduceReturnsAt(s, comparator, 0, 1);
  }

  /** At most one position is selected. */
  lemma SelectionIsUnique<T(!new)>(s: seq<T>, cmp: (T, T) -> int, fromStart: bool, i: int, k: int)
    requires ComparableContract(cmp)
    requires SelectedAt(s, cmp, fromStart, i, |s|) && SelectedAt(s, cmp, fromStart, k, |s|)
    ensures i == k
  {
    assert Sign(cmp(s[i], s[k])) == -Sign(cmp(s[k], s[i]));
  }

  /** `Stream.max` with a tie-break comparator returns exactly the selected element. */
  lemma StreamMaxTieBreak<T(!new)>(s: seq<T>, comparator: (T, T) -> int, cmp: (T, T) -> int,
                             fromStart: bool, i: int)
    requires ComparableContract(cmp) && Encodes(comparator, cmp, fromStart)
    requires SelectedAt(s, cmp, fromStart, i, |s|)
    ensures StreamMax(s, comparator) == Some(s[i])
  {
    var k := StreamMaxSelects(s, comparator, cmp, fromStart);
    SelectionIsUnique(s, cmp, fromStart, i, k);
  }

  /*
   * longest (StreamUtils.java:26-28).
   */

  /** The comparator `longest` passes to `max`. */
  function LongestComparator(fromStart: bool): (string, string) -> int {
    (w1: string, w2: string) =>
      if |w1| > |w2| then 1 else if |w1| == |w2| && fromStart then 0 else -1
  }

  function Longest(strings: seq<string>, fromStart: bool): Option<string> {
    StreamMax(strings, LongestComparator(fromStart))
  }

  /** Comparison by length. */
  function LengthCompare(w1: string, w2: string): int {
    |w1| - |w2|
  }

  lemma LengthCompareIsComparable()
    ensures ComparableContract(LengthCompare)
  {
  }

  lemma LongestComparatorEncodes(fromStart: bool)
    ensures Encodes(LongestComparator(fromStart), LengthCompare, fromStart)
  {
  }

  /** `longest` returns null on empty input, and otherwise an input string no input
      string is longer than. */
  lemma LongestIsLongest(strings: seq<string>, fromStart: bool)
    ensures Longest(strings, fromStart).None? <==> strings == []
    ensures Longest(strings, fromStart).Some? ==>
      Longest(strings, fromStart).value in strings &&
      forall w :: w in strings ==> |w| <= |Longest(strings, fromStart).value|
  {
    if strings != [] {
      LengthCompareIsComparable();
      LongestComparatorEncodes(fromStart);
      var i := StreamMaxSelects(strings, LongestComparator(fromStart), LengthCompare, fromStart);
      forall w | w in strings
        ensures |w| <= |strings[i]|
      {
        var j :| 0 <= j < |strings| && strings[j] == w;
        assert LengthCompare(strings[j], strings[i]) <= 0;
      }
    }
  }

  /** Ties on length: with `fromStart` the first longest string is returned,
      otherwise the last one. */
  lemma LongestTieBreak(strings: seq<string>, fromStart: bool, i: int)
    requires 0 <= i < |strings|
    requires forall j :: 0 <= j < |strings| ==> |strings[j]| <= |strings[i]|
    requires fromStart ==> forall j :: 0 <= j < i ==> |strings[j]| < |strings[i]|
    requires !fromStart ==> forall j :: i < j < |strings| ==> |strings[j]| < |strings[i]|
    ensures Longest(strings, fromStart) == Some(strings[i])
  {
    LengthCompareIsComparable();
    LongestComparatorEncodes(fromStart);
    assert SelectedAt(strings, LengthCompare, fromStart, i, |strings|);
    StreamMaxTieBreak(strings, LongestComparator(fromStart), LengthCompare, fromStart, i);
  }

  lemma LongestExample()
    ensures Longest(["Ok", "Way", "too"], true) == Some("Way")
    ensures Longest(["Ok", "Way", "too"], false) == Some("too")
    ensures Longest([], true) == None
  {
    LongestTieBreak(["Ok", "Way", "too"], true, 1);
    LongestTieBreak(["Ok", "Way", "too"], false, 2);
  }

  /*
   * least (StreamUtils.java:41-43).
   */

  /** The comparator `least` passes to `max`: the same shape as `longest`'s, over
      `compareTo`. */
  function LeastComparator<T>(compareTo: (T, T) -> int, fromStart: bool): (T, T) -> int {
    (t1: T, t2: T) =>
      if compareTo(t1, t2) > 0 then 1 else if compareTo(t1, t2) == 0 && fromStart then 0 else -1
  }

  /** `least` as written: `max` with a comparator that is not inverted. */
  function Least<T>(items: seq<T>, fromStart: bool, compareTo: (T, T) -> int): Option<T> {
    StreamMax(items, LeastComparator(compareTo, fromStart))
  }

  lemma LeastComparatorEncodes<T(!new)>(compareTo: (T, T) -> int, fromStart: bool)
    ensures Encodes(LeastComparator(compareTo, fromStart), compareTo, fromStart)
  {
  }

  /** `least` returns null on empty input, and otherwise an input element that no
      input element exceeds: the GREATEST element. */
  lemma LeastIsGreatest<T(!new)>(items: seq<T>, fromStart: bool, compareTo: (T, T) -> int)
    requires ComparableContract(compareTo)
    ensures Least(items, fromStart, compareTo).None? <==> items == []
    ensures Least(items, fromStart, compareTo).Some? ==>
      Least(items, fromStart, compareTo).value in items &&
      forall x :: x in items ==> compareTo(x, Least(items, fromStart, compareTo).value) <= 0
  {
    if items != [] {
      LeastComparatorEncodes(compareTo, fromStart);
      var i := StreamMaxSelects(items, LeastComparator(compareTo, fromStart), compareTo, fromStart);
      forall x | x in items
        ensures compareTo(x, items[i]) <= 0
      {
        var j :| 0 <= j < |items| && items[j] == x;
      }
    }
  }

  /** Ties under `compareTo`: with `fromStart` the first of the greatest elements is
      returned, otherwise the last one. */
  lemma LeastTieBreak<T(!new)>(items: seq<T>, fromStart: bool, compareTo: (T, T) -> int, i: int)
    requires ComparableContract(compareTo)
    requires 0 <= i < |items|
    requires forall j :: 0 <= j < |items| ==> compareTo(items[j], items[i]) <= 0
    requires fromStart ==> forall j :: 0 <= j < i ==> compareTo(items[j], items[i]) < 0
    requires !fromStart ==> forall j :: i < j < |items| ==> compareTo(items[j], items[i]) < 0
    ensures Least(items, fromStart, compareTo) == Some(items[i])
  {
    LeastComparatorEncodes(compareTo, fromStart);
    assert SelectedAt(items, compareTo, fromStart, i, |items|);
    StreamMaxTieBreak(items, LeastComparator(compareTo, fromStart), compareTo, fromStart, i);
  }

  /** `Integer.compareTo`. */
  function IntegerCompareTo(x: int, y: int): int {
    if x < y then -1 else if x == y then 0 else 1
  }

  /** Compares tagged values by their value alone, so that which of two equal values
      is returned can be seen from the tag. */
  function ValueCompareTo(x: (int, char), y: (int, char)): int {
    IntegerCompareTo(x.0, y.0)
  }

  lemma IntegerCompareToIsComparable()
    ensures ComparableContract(IntegerCompareTo)
  {
  }

  lemma ValueCompareToIsComparable()
    ensures ComparableContract(ValueCompareTo)
  {
  }

  /** `least` on 1 and 2 returns 2. */
  lemma LeastReturnsGreatestExample()
    ensures Least([1, 2], true, IntegerCompareTo) == Some(2)
    ensures IntegerCompareTo(1, 2) < 0
  {
    IntegerCompareToIsComparable();
    LeastTieBreak([1, 2], true, IntegerCompareTo, 1);
  }

  /** Ties keep their position: among `[3, 1, 3]` the first 3 is returned with
      `fromStart` and the second otherwise. */
  lemma LeastTieBreakExample()
    ensures Least([(3, 'a'), (1, 'b'), (3, 'c')], true, ValueCompareTo) == Some((3, 'a'))
    ensures Least([(3, 'a'), (1, 'b'), (3, 'c')], false, ValueCompareTo) == Some((3, 'c'))
  {
    ValueCompareToIsComparable();
    LeastTieBreak([(3, 'a'), (1, 'b'), (3, 'c')], true, ValueCompareTo, 0);
    LeastTieBreak([(3, 'a'), (1, 'b'), (3, 'c')], false, ValueCompareTo, 2);
  }

  /*
   * The least element, as the name and documentation of `least` describe it:
   * `max` with the comparison inverted.
   */

  function LeastCorrectedComparator<T>(compareTo: (T, T) -> int, fromStart: bool): (T, T) -> int {
    (t1: T, t2: T) =>
      if compareTo(t1, t2) < 0 then 1 else if compareTo(t1, t2) == 0 && fromStart then 0 else -1
  }

  function LeastCorrected<T>(items: seq<T>, fromStart: bool, compareTo: (T, T) -> int): Option<T> {
    StreamMax(items, LeastCorrectedComparator(compareTo, fromStart))
  }

  /** The reversed comparison. */
  function Reversed<T>(compareTo: (T, T) -> int): (T, T) -> int {
    (x: T, y: T) => compareTo(y, x)
  }

  lemma ReversedIsComparable<T(!new)>(compareTo: (T, T) -> int)
    requires ComparableContract(compareTo)
    ensures ComparableContract(Reversed(compareTo))
  {
    var r := Reversed(compareTo);
    forall x, y, z | r(x, y) == 0
      ensures Sign(r(x, z)) == Sign(r(y, z))
    {
      assert Sign(compareTo(y, x)) == -Sign(compareTo(x, y));
      assert Sign(compareTo(x, z)) == Sign(compareTo(y, z));
      assert Sign(compareTo(z, x)) == -Sign(compareTo(x, z));
      assert Sign(compareTo(z, y)) == -Sign(compareTo(y, z));
    }
  }

  lemma LeastCorrectedComparatorEncodes<T(!new)>(compareTo: (T, T) -> int, fromStart: bool)
    requires ComparableContract(compareTo)
    ensures Encodes(LeastCorrectedComparator(compareTo, fromStart), Reversed(compareTo), fromStart)
  {
    forall b, x
      ensures LeastCorrectedComparator(compareTo, fromStart)(b, x) >= 0
          <==> Reversed(compareTo)(b, x) > 0 || (Reversed(compareTo)(b, x) == 0 && fromStart)
    {
      assert Sign(compareTo(b, x)) == -Sign(compareTo(x, b));
    }
  }

  /** The corrected selector returns null on empty input, and otherwise an input
      element that exceeds no input element: the least element. */
  lemma LeastCorrectedIsLeast<T(!new)>(items: seq<T>, fromStart: bool, compareTo: (T, T) -> int)
    requires ComparableContract(compareTo)
    ensures LeastCorrected(items, fromStart, compareTo).None? <==> items == []
    ensures LeastCorrected(items, fromStart, compareTo).Some? ==>
      LeastCorrected(items, fromStart, compareTo).value in items &&
      forall x :: x in items ==> compareTo(LeastCorrected(items, fromStart, compareTo).value, x) <= 0
  {
    if items != [] {
      ReversedIsComparable(compareTo);
      LeastCorrectedComparatorEncodes(compareTo, fromStart);
      var c := LeastCorrectedComparator(compareTo, fromStart);
      var i := StreamMaxSelects(items, c, Reversed(compareTo), fromStart);
      forall x | x in items
        ensures compareTo(items[i], x) <= 0
      {
        var j :| 0 <= j < |items| && items[j] == x;
        assert Reversed(compareTo)(items[j], items[i]) <= 0;
      }
    }
  }

  /** Ties: with `fromStart` the corrected selector returns the first of the least
      elements, otherwise the last one. */
  lemma LeastCorrectedTieBreak<T(!new)>(items: seq<T>, fromStart: bool, compareTo: (T, T) -> int, i: int)
    requires ComparableContract(compareTo)
    requires 0 <= i < |items|
    requires forall j :: 0 <= j < |items| ==> compareTo(items[i], items[j]) <= 0
    requires fromStart ==> forall j :: 0 <= j < i ==> compareTo(items[i], items[j]) < 0
    requires !fromStart ==> forall j :: i < j < |items| ==> compareTo(items[i], items[j]) < 0
    ensures LeastCorrected(items, fromStart, compareTo) == Some(items[i])
  {
    ReversedIsComparable(compareTo);
    LeastCorrectedComparatorEncodes(compareTo, fromStart);
    assert SelectedAt(items, Reversed(compareTo), fromStart, i, |items|);
    StreamMaxTieBreak(items, LeastCorrectedComparator(compareTo, fromStart), Reversed(compareTo), fromStart, i);
  }

  /** The corrected selector on 1 and 2 returns 1. */
  lemma LeastCorrectedExample()
    ensures LeastCorrected([1, 2], true, IntegerCompareTo) == Some(1)
  {
    IntegerCompareToIsComparable();
    LeastCorrectedTieBreak([1, 2], true, IntegerCompareTo, 0);
  }

  /*
   * capitalized (StreamUtils.java:12-14).
   */

  /** `b` keeps `a`'s elements in order, some of them possibly dropped. */
  ghost predicate IsSubsequence<T>(a: seq<T>, b: seq<T>)
    decreases |b|
  {
    if b == [] then a == []
    else (a != [] && a[0] == b[0] && IsSubsequence(a[1..], b[1..])) || IsSubsequence(a, b[1..])
  }

  /** The filter's test on a non-empty string: its first character is unchanged by
      upper-casing.  `toUpperCase` stands for `String.toUpperCase`. */
  predicate StartsCapitalized(s: string, toUpperCase: string -> string)
    requires s != []
  {
    s[..1] == toUpperCase(s[..1])
  }

  /** How often `w` is in the filter's output when it is `count` times in its input. */
  function Kept(w: string, toUpperCase: string -> string, count: nat): nat {
    if w != [] && StartsCapitalized(w, toUpperCase) then count else 0
  }

  /** `capitalized`: throws on the first empty string (`substring(0, 1)` is out of
      range); otherwise returns, in input order, exactly the strings whose first
      character equals its upper-cased form, each as often as it occurs. */
  function Capitalized(strings: seq<string>, toUpperCase: string -> string): (r: Result<seq<string>>)
    ensures r.Thrown? <==> "" in strings
    ensures r.Thrown? ==> r.exception == StringIndexOutOfBoundsException(1)
    ensures r.Ok? ==> IsSubsequence(r.value, strings)
    ensures r.Ok? ==> forall w :: multiset(r.value)[w] == Kept(w, toUpperCase, multiset(strings)[w])
  {
    if strings == [] then Ok([])
    else if strings[0] == "" then Thrown(StringIndexOutOfBoundsException(1))
    else
      match Capitalized(strings[1..], toUpperCase)
      case Thrown(e) => Thrown(e)
      case Ok(rest) =>
        assert strings == [strings[0]] + strings[1..];
        if StartsCapitalized(strings[0], toUpperCase) then Ok([strings[0]] + rest) else Ok(rest)
  }
}
