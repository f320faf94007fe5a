/**
 * Small helpers of common-tools.js: the interval tests `inRange`,
 * `inRangeL`, `inRangeR` and `inRangeLR`, the proportion test `isMinority`,
 * and the digit scrubbers `numberScreenOut`, `nonnumerScreenOut` and
 * `numberArrayScreenOut`.
 */
module Helpers {
  import opened Common

  // ---------------------------------------------------------------------
  // inRange, inRangeL, inRangeR, inRangeLR
  // ---------------------------------------------------------------------

  /** `inRange(target, rangeS, rangeE)`: strictly between the two bounds. */
  predicate InRange(target: real, rangeS: real, rangeE: real) {
    target > rangeS && target < rangeE
  }

  /** `inRangeL`: the lower bound `rangeS` included. */
  predicate InRangeL(target: real, rangeS: real, rangeE: real) {
    target >= rangeS && target < rangeE
  }

  /** `inRangeR`: the upper bound `rangeE` included. */
  predicate InRangeR(target: real, rangeS: real, rangeE: real) {
    target > rangeS && target <= rangeE
  }

  /** `inRangeLR`: both bounds included. */
  predicate InRangeLR(target: real, rangeS: real, rangeE: real) {
    target >= rangeS && target <= rangeE
  }

  /**
   * The four tests differ only at the bounds: each closed end adds exactly
   * that bound, provided the interval it closes is not empty.
   */
  lemma InRangeBounds(target: real, rangeS: real, rangeE: real)
    ensures InRangeL(target, rangeS, rangeE) <==>
      InRange(target, rangeS, rangeE) || (target == rangeS && rangeS < rangeE)
    ensures InRangeR(target, rangeS, rangeE) <==>
      InRange(target, rangeS, rangeE) || (target == rangeE && rangeS < rangeE)
    ensures InRangeLR(target, rangeS, rangeE) <==>
      InRangeL(target, rangeS, rangeE) || InRangeR(target, rangeS, rangeE) || (target == rangeS == rangeE)
  {
  }

  /** With `rangeS` at or above `rangeE` only the closed test can hold, and only on a single point. */
  lemma InRangeEmpty(target: real, rangeS: real, rangeE: real)
    requires rangeS >= rangeE
    ensures !InRange(target, rangeS, rangeE) && !InRangeL(target, rangeS, rangeE)
    ensures !InRangeR(target, rangeS, rangeE)
    ensures InRangeLR(target, rangeS, rangeE) <==> target == rangeS == rangeE
  {
  }

  // ---------------------------------------------------------------------
  // isMinority
  // ---------------------------------------------------------------------

  /** How many elements of `arr` the comparison calls the same as `targetElem`. */
  function SameCount<T>(arr: seq<T>, targetElem: T, same: (T, T) -> bool): (c: nat)
    ensures c <= |arr|
  {
    if arr == [] then 0
    else SameCount(arr[..|arr| - 1], targetElem, same) + (if same(arr[|arr| - 1], targetElem) then 1 else 0)
  }

  /**
   * `isMinority(arr, miPercentage, targetElem, cFx)`: the share of elements
   * the same as `targetElem` is below `miPercentage`. On an empty array the
   * share is `0/0`, NaN, and the comparison is false.
   */
  method IsMinority<T>(arr: seq<T>, miPercentage: real, targetElem: T, same: (T, T) -> bool)
    returns (minority: bool)
    ensures minority <==>
      |arr| > 0 && (SameCount(arr, targetElem, same) as real) < miPercentage * (|arr| as real)
  {
    var L := |arr|;
    var targetSameCount := 0;
    var i := 0;
    while i < L
      invariant 0 <= i <= L
      invariant targetSameCount == SameCount(arr[..i], targetElem, same)
    {
      assert arr[..i + 1][..i] == arr[..i];
      if same(arr[i], targetElem) {
        targetSameCount := targetSameCount + 1;
      }
      i := i + 1;
    }
    assert arr[..L] == arr;
    if L == 0 {
      return false;
    }
    ghost var count, length := targetSameCount as real, L as real;
    ShareBelow(count, length, miPercentage);
    minority := (targetSameCount as real) / (L as real) < miPercentage;
  }

  lemma ShareBelow(count: real, length: real, p: real)
    requires length > 0.0
    ensures count / length < p <==> count < p * length
  {
    if count / length < p {
      assert count == (count / length) * length;
    }
  }

  /**
   * A threshold above 1 makes every non-empty array a minority, a threshold
   * at or below 0 none; an element nobody is the same as is a minority for
   * any positive threshold.
   */
  lemma MinorityThresholds<T>(arr: seq<T>, p: real, targetElem: T, same: (T, T) -> bool)
    requires |arr| > 0
    ensures var c := SameCount(arr, targetElem, same) as real;
      && (p > 1.0 ==> c < p * (|arr| as real))
      && (p <= 0.0 ==> !(c < p * (|arr| as real)))
      && (SameCount(arr, targetElem, same) == 0 ==> (c < p * (|arr| as real) <==> p > 0.0))
  {
    var count := SameCount(arr, targetElem, same);
    ShareThresholds(count as real, |arr| as real, p);
  }

  lemma ShareThresholds(c: real, n: real, p: real)
    requires 0.0 <= c <= n && n > 0.0
    ensures p > 1.0 ==> c < p * n
    ensures p <= 0.0 ==> !(c < p * n)
    ensures c == 0.0 ==> (c < p * n <==> p > 0.0)
  {
    if p > 1.0 {
      ScaleAbove(c, n, p);
    }
    if p <= 0.0 {
      ScaleNonPositive(n, p);
    }
    if p > 0.0 {
      ScalePositive(n, p);
    }
  }

  lemma ScaleAbove(c: real, n: real, p: real)
    requires 0.0 <= c <= n && n > 0.0 && p > 1.0
    ensures c < p * n
  {
    assert p * n - n == (p - 1.0) * n;
  }

  lemma ScaleNonPositive(n: real, p: real)
    requires n > 0.0 && p <= 0.0
    ensures p * n <= 0.0
  {
  }

  lemma ScalePositive(n: real, p: real)
    requires n > 0.0 && p > 0.0
    ensures p * n > 0.0
  {
  }

  /** The count adds up over a split of the array. */
  lemma {:induction false} SameCountAppend<T>(a: seq<T>, b: seq<T>, targetElem: T, same: (T, T) -> bool)
    ensures SameCount(a + b, targetElem, same) == SameCount(a, targetElem, same) + SameCount(b, targetElem, same)
  {
    if b == [] {
      assert a + b == a;
    } else {
      assert (a + b)[..|a + b| - 1] == a + b[..|b| - 1];
      SameCountAppend(a, b[..|b| - 1], targetElem, same);
    }
  }

  // ---------------------------------------------------------------------
  // numberScreenOut, nonnumerScreenOut, numberArrayScreenOut
  // ---------------------------------------------------------------------

  /** The digits of `s`, in order: the characters `parseInt` reads as a number. */
  function DigitsOf(s: string): (r: string)
    ensures AllDigits(r) && |r| <= |s|
  {
    if s == [] then []
    else (if IsDigit(s[0]) then [s[0]] else []) + DigitsOf(s[1..])
  }

  /** The other characters of `s`, in order. */
  function NonDigitsOf(s: string): (r: string)
    ensures forall i :: 0 <= i < |r| ==> !IsDigit(r[i])
    ensures |r| <= |s|
  {
    if s == [] then []
    else (if IsDigit(s[0]) then [] else [s[0]]) + NonDigitsOf(s[1..])
  }

  /** Every character goes to exactly one of the two scrubbers. */
  lemma {:induction false} ScreenOutPartition(s: string)
    ensures multiset(DigitsOf(s)) + multiset(NonDigitsOf(s)) == multiset(s)
    ensures |DigitsOf(s)| + |NonDigitsOf(s)| == |s|
  {
    if s != [] {
      ScreenOutPartition(s[1..]);
      assert s == [s[0]] + s[1..];
    }
  }

  /** A string of digits passes through unchanged and leaves nothing for the other scrubber. */
  lemma {:induction false} DigitsOfDigits(s: string)
    requires AllDigits(s)
    ensures DigitsOf(s) == s && NonDigitsOf(s) == []
  {
    if s != [] {
      DigitsOfDigits(s[1..]);
    }
  }

  /** A JavaScript number as the scrubbers return it: NaN, or a non-negative integer. */
  datatype NumberValue = NaN | Finite(n: nat)

  /** `numberScreenOut(str)`: NaN for a non-string, else `Number` of its digits (0 when there are none). */
  function NumberScreenOut(str: JsValue): (r: NumberValue)
    ensures !str.JsString? <==> r.NaN?
    ensures str.JsString? && DigitsOf(str.s) == [] ==> r == Finite(0)
  {
    match str
    case JsString(s) => Finite(DigitsValue(DigitsOf(s)))
    case _ => NaN
  }

  /** `nonnumerScreenOut(str)`: the empty string for a non-string, else its non-digits. */
  function NonnumerScreenOut(str: JsValue): (r: string)
    ensures !str.JsString? ==> r == []
    ensures forall i :: 0 <= i < |r| ==> !IsDigit(r[i])
  {
    match str
    case JsString(s) => NonDigitsOf(s)
    case _ => []
  }

  /** Scrubbing the decimal form of an integer gives its magnitude: the sign is lost. */
  lemma NumberScreenOutOfNumeral(n: int)
    ensures NumberScreenOut(JsString(IntToString(n))) == Finite(if n < 0 then -n else n)
    ensures NonnumerScreenOut(JsString(IntToString(n))) == if n < 0 then "-" else ""
  {
    var m := if n < 0 then -n else n;
    var s := IntToString(n);
    NatToStringValue(m);
    DigitsOfDigits(NatToString(m));
    if n < 0 {
      assert s[0] == '-' && s[1..] == NatToString(m);
      assert DigitsOf(s) == DigitsOf(s[1..]);
      assert NonDigitsOf(s) == ['-'] + NonDigitsOf(s[1..]);
    }
  }

  /** `str.split(/\D/g)`: the pieces between the non-digit characters, empty ones included. */
  function SplitOnNonDigits(s: string): (pieces: seq<string>)
    ensures |pieces| == |NonDigitsOf(s)| + 1
    ensures forall k :: 0 <= k < |pieces| ==> AllDigits(pieces[k])
  {
    if s == [] then [[]]
    else
      var rest := SplitOnNonDigits(s[1..]);
      if IsDigit(s[0]) then [[s[0]] + rest[0]] + rest[1..] else [[]] + rest
  }

  /** Putting the separators back between the pieces. */
  function Interleave(pieces: seq<string>, seps: string): string
    requires |pieces| == |seps| + 1
  {
    if seps == [] then pieces[0]
    else pieces[0] + [seps[0]] + Interleave(pieces[1..], seps[1..])
  }

  /** Splitting loses nothing: the pieces and the separators rebuild the string. */
  lemma {:induction false} SplitRebuilds(s: string)
    ensures Interleave(SplitOnNonDigits(s), NonDigitsOf(s)) == s
  {
    if s != [] {
      SplitRebuilds(s[1..]);
      var rest := SplitOnNonDigits(s[1..]);
      var seps := NonDigitsOf(s[1..]);
      if IsDigit(s[0]) {
        assert NonDigitsOf(s) == seps;
        InterleaveExtendFirst(s[0], rest, seps);
      } else {
        assert NonDigitsOf(s) == [s[0]] + seps;
        InterleaveNewFirst(s[0], rest, seps);
      }
      assert s == [s[0]] + s[1..];
    }
  }

  /** A digit joins the first piece. */
  lemma InterleaveExtendFirst(c: char, rest: seq<string>, seps: string)
    requires |rest| == |seps| + 1
    ensures Interleave([[c] + rest[0]] + rest[1..], seps) == [c] + Interleave(rest, seps)
  {
    var pieces := [[c] + rest[0]] + rest[1..];
    assert pieces[0] == [c] + rest[0] && pieces[1..] == rest[1..];
    if seps != [] {
      assert Interleave(pieces, seps) == [c] + rest[0] + [seps[0]] + Interleave(rest[1..], seps[1..]);
    }
  }

  /** A separator opens a new, empty first piece. */
  lemma InterleaveNewFirst(c: char, rest: seq<string>, seps: string)
    requires |rest| == |seps| + 1
    ensures Interleave([[]] + rest, [c] + seps) == [c] + Interleave(rest, seps)
  {
    var pieces, all := [[]] + rest, [c] + seps;
    assert pieces[0] == [] && pieces[1..] == rest && all[0] == c && all[1..] == seps;
  }

  function Concat(pieces: seq<string>): string {
    if pieces == [] then [] else pieces[0] + Concat(pieces[1..])
  }

  /** `.filter(S => S)`: the empty pieces dropped. */
  function NonEmpty(pieces: seq<string>): (r: seq<string>)
    ensures forall k :: 0 <= k < |r| ==> r[k] != [] && r[k] in pieces
    ensures Concat(r) == Concat(pieces)
  {
    if pieces == [] then []
    else
      var rest := NonEmpty(pieces[1..]);
      if pieces[0] == [] then rest else [pieces[0]] + rest
  }

  /** `.map(N => +N)`: each run of digits read as a number. */
  function Values(runs: seq<string>): (r: seq<nat>)
    requires forall k :: 0 <= k < |runs| ==> AllDigits(runs[k])
    ensures |r| == |runs|
    ensures forall k :: 0 <= k < |runs| ==> r[k] == DigitsValue(runs[k])
  {
    if runs == [] then [] else [DigitsValue(runs[0])] + Values(runs[1..])
  }

  /** The maximal runs of digits in `s`, in order. */
  function DigitRuns(s: string): (runs: seq<string>)
    ensures forall k :: 0 <= k < |runs| ==> runs[k] != [] && AllDigits(runs[k])
  {
    NonEmpty(SplitOnNonDigits(s))
  }

  /** `numberArrayScreenOut(str)`: the empty array for a non-string, else the values of its digit runs. */
  function NumberArrayScreenOut(str: JsValue): (r: seq<nat>)
    ensures !str.JsString? ==> r == []
    ensures str.JsString? ==> r == Values(DigitRuns(str.s))
  {
    match str
    case JsString(s) => Values(DigitRuns(s))
    case _ => []
  }

  /** The runs hold every digit of the string once, in order: together they are what `numberScreenOut` reads. */
  lemma {:induction false} DigitRunsAreTheDigits(s: string)
    ensures Concat(DigitRuns(s)) == DigitsOf(s)
  {
    SplitConcat(s);
  }

  lemma {:induction false} SplitConcat(s: string)
    ensures Concat(SplitOnNonDigits(s)) == DigitsOf(s)
  {
    if s != [] {
      SplitConcat(s[1..]);
      var rest := SplitOnNonDigits(s[1..]);
      if IsDigit(s[0]) {
        var pieces := [[s[0]] + rest[0]] + rest[1..];
        assert pieces[1..] == rest[1..];
        assert Concat(rest) == rest[0] + Concat(rest[1..]);
      } else {
        assert ([[]] + rest)[1..] == rest;
      }
    }
  }

  /** The filter works piece by piece: it distributes over a concatenation of piece lists. */
  lemma {:induction false} NonEmptyAppend(a: seq<string>, b: seq<string>)
    ensures NonEmpty(a + b) == NonEmpty(a) + NonEmpty(b)
  {
    if a == [] {
      assert a + b == b;
    } else {
      assert (a + b)[0] == a[0] && (a + b)[1..] == a[1..] + b;
      NonEmptyAppend(a[1..], b);
    }
  }

  /** A single piece is kept exactly when it is not empty. */
  lemma NonEmptyOne(p: string)
    ensures NonEmpty([p]) == if p == [] then [] else [p]
  {
    assert [p][1..] == [];
  }

  /** A non-digit cuts the string: the pieces on either side are split independently. */
  lemma {:induction false} SplitAtNonDigit(a: string, c: char, b: string)
    requires !IsDigit(c)
    ensures SplitOnNonDigits(a + [c] + b) == SplitOnNonDigits(a) + SplitOnNonDigits(b)
  {
    if a == [] {
      assert a + [c] + b == [c] + b;
      SplitCons(c, b);
    } else {
      var x, t := a[0], a[1..];
      var ra, rb := SplitOnNonDigits(t), SplitOnNonDigits(b);
      SplitAtNonDigit(t, c, b);
      assert a + [c] + b == [x] + (t + [c] + b);
      SplitCons(x, t + [c] + b);
      assert a == [x] + t;
      SplitCons(x, t);
      SplitStepAppend(x, ra, rb);
    }
  }

  /** The split step commutes with appending further pieces. */
  lemma SplitStepAppend(x: char, ra: seq<string>, rb: seq<string>)
    requires ra != []
    ensures (if IsDigit(x) then [[x] + (ra + rb)[0]] + (ra + rb)[1..] else [[]] + (ra + rb))
      == (if IsDigit(x) then [[x] + ra[0]] + ra[1..] else [[]] + ra) + rb
  {
    assert (ra + rb)[0] == ra[0] && (ra + rb)[1..] == ra[1..] + rb;
  }

  /** One step of the split: a digit joins the first piece, a non-digit opens a new one. */
  lemma SplitCons(x: char, t: string)
    ensures SplitOnNonDigits([x] + t) ==
      if IsDigit(x) then [[x] + SplitOnNonDigits(t)[0]] + SplitOnNonDigits(t)[1..]
      else [[]] + SplitOnNonDigits(t)
  {
    assert ([x] + t)[0] == x && ([x] + t)[1..] == t;
  }

  /** A string of digits is one piece. */
  lemma {:induction false} SplitOfDigits(d: string)
    requires AllDigits(d)
    ensures SplitOnNonDigits(d) == [d]
  {
    if d != [] {
      assert AllDigits(d[1..]) by {
        forall i | 0 <= i < |d[1..]| ensures IsDigit(d[1..][i]) {
          assert d[1..][i] == d[i + 1];
        }
      }
      SplitOfDigits(d[1..]);
      assert IsDigit(d[0]);
      assert [d[0]] + d[1..] == d;
    }
  }

  /** Runs are maximal: a non-digit ends one group of digits, and the groups on either side are found independently. */
  lemma DigitRunsAtNonDigit(a: string, c: char, b: string)
    requires !IsDigit(c)
    ensures DigitRuns(a + [c] + b) == DigitRuns(a) + DigitRuns(b)
  {
    SplitAtNonDigit(a, c, b);
    NonEmptyAppend(SplitOnNonDigits(a), SplitOnNonDigits(b));
  }

  /** A string of consecutive digits is one run, taken whole; the empty string has none. */
  lemma DigitRunsOfDigits(d: string)
    requires AllDigits(d)
    ensures DigitRuns(d) == if d == [] then [] else [d]
  {
    SplitOfDigits(d);
    NonEmptyOne(d);
  }

  /** `numberArrayScreenOut` reads the groups on either side of a non-digit separately, in order. */
  lemma NumberArrayScreenOutAtNonDigit(a: string, c: char, b: string)
    requires !IsDigit(c)
    ensures NumberArrayScreenOut(JsString(a + [c] + b))
      == NumberArrayScreenOut(JsString(a)) + NumberArrayScreenOut(JsString(b))
  {
    DigitRunsAtNonDigit(a, c, b);
    ValuesAppend(DigitRuns(a), DigitRuns(b));
  }

  lemma ValuesAppend(x: seq<string>, y: seq<string>)
    requires forall k :: 0 <= k < |x| ==> AllDigits(x[k])
    requires forall k :: 0 <= k < |y| ==> AllDigits(y[k])
    ensures forall k :: 0 <= k < |x + y| ==> AllDigits((x + y)[k])
    ensures Values(x + y) == Values(x) + Values(y)
  {
    assert forall k :: 0 <= k < |x + y| ==> (x + y)[k] == if k < |x| then x[k] else y[k - |x|];
  }

  /** A group of consecutive digits gives the one number it spells. */
  lemma NumberArrayScreenOutOfDigits(d: string)
    requires d != [] && AllDigits(d)
    ensures NumberArrayScreenOut(JsString(d)) == [DigitsValue(d)]
  {
    DigitRunsOfDigits(d);
  }
}
