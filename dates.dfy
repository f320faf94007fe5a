/**
 * Date formatting in common-tools.js: `DateStringNumberMutualConversion`,
 * which turns `'YYYY-MM-DD HH:MM:SS'` into the number of its 14 digits and
 * back, and the zero-padding formatters `DateToString`, `DateTimeToString`
 * and `DateToStandardString` over the fields a `Date` object reports.
 */
module Dates {
  import opened Common

  // ---------------------------------------------------------------------
  // The string-to-number direction
  // ---------------------------------------------------------------------

  /** `\s` of JavaScript regular expressions: white space and line terminators. */
  predicate IsJsSpace(c: char) {
    var x := c as int;
    || 0x09 <= x <= 0x0D || x == 0x20 || x == 0xA0 || x == 0x1680 || 0x2000 <= x <= 0x200A
    || x == 0x2028 || x == 0x2029 || x == 0x202F || x == 0x205F || x == 0x3000 || x == 0xFEFF
  }

  /** The positions of the separators in `YYYY-MM-DD HH:MM:SS`. */
  predicate IsSeparatorPosition(i: int) {
    i == 4 || i == 7 || i == 10 || i == 13 || i == 16
  }

  /** `/^\d{4}-\d{2}-\d{2}\s\d{2}:\d{2}:\d{2}$/.test(s)`. */
  predicate Matches(s: string) {
    && |s| == 19
    && (forall i :: 0 <= i < 19 && !IsSeparatorPosition(i) ==> IsDigit(s[i]))
    && s[4] == '-' && s[7] == '-' && IsJsSpace(s[10]) && s[13] == ':' && s[16] == ':'
  }

  /** The character class `[-,\s,:]`: minus, comma, white space and colon. */
  predicate IsStripped(c: char) {
    c == '-' || c == ',' || IsJsSpace(c) || c == ':'
  }

  /** `s.replace(/[-,\s,:]/g, '')`. */
  function StripSeparators(s: string): (r: string)
    ensures |r| <= |s|
    ensures forall i :: 0 <= i < |r| ==> !IsStripped(r[i])
  {
    if s == [] then []
    else (if IsStripped(s[0]) then [] else [s[0]]) + StripSeparators(s[1..])
  }

  lemma {:induction false} StripAppend(a: string, b: string)
    ensures StripSeparators(a + b) == StripSeparators(a) + StripSeparators(b)
  {
    if a == [] {
      assert a + b == b;
    } else {
      assert (a + b)[0] == a[0];
      assert (a + b)[1..] == a[1..] + b;
      StripAppend(a[1..], b);
    }
  }

  lemma {:induction false} StripDigits(s: string)
    requires AllDigits(s)
    ensures StripSeparators(s) == s
  {
    if s != [] {
      StripDigits(s[1..]);
    }
  }

  // ---------------------------------------------------------------------
  // The number-to-string direction
  // ---------------------------------------------------------------------

  /**
   * `arr.splice(start, 0, item)` for a non-negative `start`: `item` goes in
   * at `start`, or at the end when `start` is past it.
   */
  function Splice(arr: string, start: nat, item: char): (r: string)
    ensures var at := if start <= |arr| then start else |arr|;
      && |r| == |arr| + 1 && r[at] == item
      && r[..at] == arr[..at] && r[at + 1..] == arr[at..]
  {
    if start <= |arr| then arr[..start] + [item] + arr[start..] else arr + [item]
  }

  function Min(a: nat, b: nat): nat {
    if a <= b then a else b
  }

  /**
   * The digits of a number laid out as `YYYY-MM-DD HH:MM:SS`; when there are
   * fewer than 14 digits the later pieces are empty and the separators pile
   * up at the end, when there are more the last piece holds the excess.
   */
  function Layout(d: string): string {
    var n := |d|;
    d[..Min(4, n)] + "-" + d[Min(4, n)..Min(6, n)] + "-" + d[Min(6, n)..Min(8, n)] + " "
    + d[Min(8, n)..Min(10, n)] + ":" + d[Min(10, n)..Min(12, n)] + ":" + d[Min(12, n)..]
  }

  /**
   * One splice of the number branch: the prefix `p` built so far holds the
   * digits before position `k` and `sep` separators, so a splice at
   * `k + w + sep` lands after the next `w` digits, or at the end when the
   * digits run out first.
   */
  lemma LayoutStep(d: string, p: string, k: nat, w: nat, sep: nat, c: char)
    requires |p| == Min(k, |d|) + sep
    ensures Splice(p + d[Min(k, |d|)..], k + w + sep, c)
      == p + d[Min(k, |d|)..Min(k + w, |d|)] + [c] + d[Min(k + w, |d|)..]
  {
    var n := |d|;
    if n <= k {
      assert d[Min(k, n)..] == [] && d[Min(k, n)..Min(k + w, n)] == [] && d[Min(k + w, n)..] == [];
      assert p + [] == p;
    } else {
      var r := d[k..];
      var m := Min(k + w, n) - k;
      assert r[..m] == d[k..Min(k + w, n)];
      assert r[m..] == d[Min(k + w, n)..];
      assert (p + r)[..|p| + m] == p + r[..m];
      assert (p + r)[|p| + m..] == r[m..];
    }
  }

  /** The five successive splices of the number branch. */
  method SpliceSeparators(digits: string) returns (targetArr: string)
    ensures targetArr == Layout(digits)
  {
    var n := |digits|;
    targetArr := digits;
    ghost var p: string := [];
    assert targetArr == p + digits[Min(0, n)..];
    LayoutStep(digits, p, 0, 4, 0, '-');
    targetArr := Splice(targetArr, 4, '-');
    p := p + digits[Min(0, n)..Min(4, n)] + "-";
    LayoutStep(digits, p, 4, 2, 1, '-');
    targetArr := Splice(targetArr, 7, '-');
    p := p + digits[Min(4, n)..Min(6, n)] + "-";
    LayoutStep(digits, p, 6, 2, 2, ' ');
    targetArr := Splice(targetArr, 10, ' ');
    p := p + digits[Min(6, n)..Min(8, n)] + " ";
    LayoutStep(digits, p, 8, 2, 3, ':');
    targetArr := Splice(targetArr, 13, ':');
    p := p + digits[Min(8, n)..Min(10, n)] + ":";
    LayoutStep(digits, p, 10, 2, 4, ':');
    targetArr := Splice(targetArr, 16, ':');
    p := p + digits[Min(10, n)..Min(12, n)] + ":";
    assert digits[Min(0, n)..Min(4, n)] == digits[..Min(4, n)];
  }

  // ---------------------------------------------------------------------
  // DateStringNumberMutualConversion
  // ---------------------------------------------------------------------

  /** What the conversion returns: a number, a string, or nothing (`undefined`). */
  datatype Conversion = NumberResult(n: nat) | StringResult(s: string) | Undefined

  /**
   * `DateStringNumberMutualConversion(target)`: a matching string becomes the
   * number of its digits, any other string 0; a negative number becomes
   * `'-'`, any other number its digits laid out as a date; any other value
   * gives `undefined`.
   */
  method DateStringNumberMutualConversion(target: JsValue) returns (r: Conversion)
    ensures target.JsString? && !Matches(target.s) ==> r == NumberResult(0)
    ensures target.JsString? && Matches(target.s) ==>
      AllDigits(StripSeparators(target.s)) && r == NumberResult(DigitsValue(StripSeparators(target.s)))
    ensures target.JsNumber? && target.n < 0 ==> r == StringResult("-")
    ensures target.JsNumber? && target.n >= 0 ==> r == StringResult(Layout(NatToString(target.n)))
    ensures target.JsOther? ==> r == Undefined
  {
    match target {
      case JsString(s) =>
        if !Matches(s) {
          return NumberResult(0);
        }
        MatchedDigits(s);
        return NumberResult(DigitsValue(StripSeparators(s)));
      case JsNumber(n) =>
        if n < 0 {
          return StringResult("-");
        }
        var laidOut := SpliceSeparators(IntToString(n));
        return StringResult(laidOut);
      case JsOther =>
        return Undefined;
    }
  }

  /** The digits a matching string keeps: its six fields, in order. */
  function Fields(s: string): string
    requires |s| == 19
  {
    s[..4] + s[5..7] + s[8..10] + s[11..13] + s[14..16] + s[17..]
  }

  lemma AllDigitsAppend(a: string, b: string)
    requires AllDigits(a) && AllDigits(b)
    ensures AllDigits(a + b)
  {
    assert forall i :: 0 <= i < |a + b| ==> (a + b)[i] == if i < |a| then a[i] else b[i - |a|];
  }

  /** Stripping keeps a run of `k` leading digits as it is. */
  lemma StripKeeps(t: string, k: nat)
    requires k <= |t| && AllDigits(t[..k])
    ensures StripSeparators(t) == t[..k] + StripSeparators(t[k..])
  {
    assert t == t[..k] + t[k..];
    StripAppend(t[..k], t[k..]);
    StripDigits(t[..k]);
  }

  /** The six fields of a matching string are digits. */
  lemma MatchedPieces(s: string)
    requires Matches(s)
    ensures AllDigits(s[..4]) && AllDigits(s[5..7]) && AllDigits(s[8..10])
    ensures AllDigits(s[11..13]) && AllDigits(s[14..16]) && AllDigits(s[17..])
  {
    var ends := [4, 7, 10, 13, 16, 19];
    forall j, i | 0 <= j < 6 && ends[j] - (if j == 0 then 4 else 2) <= i < ends[j]
      ensures IsDigit(s[i])
    {
    }
  }

  /** A field of digits followed by a separator: stripping keeps the field and drops the separator. */
  lemma StripField(s: string, k: nat, w: nat)
    requires k + w < |s| && AllDigits(s[k..k + w]) && IsStripped(s[k + w])
    ensures StripSeparators(s[k..]) == s[k..k + w] + StripSeparators(s[k + w + 1..])
  {
    assert s[k..][..w] == s[k..k + w];
    assert s[k..][w..] == s[k + w..];
    StripKeeps(s[k..], w);
    assert s[k + w..][1..] == s[k + w + 1..];
  }

  /** Stripping removes exactly the five separators of a matching string. */
  lemma StripMatched(s: string)
    requires Matches(s)
    ensures StripSeparators(s) == s[..4] + (s[5..7] + (s[8..10] + (s[11..13] + (s[14..16] + s[17..]))))
  {
    MatchedPieces(s);
    StripDigits(s[17..]);
    StripField(s, 14, 2);
    StripField(s, 11, 2);
    StripField(s, 8, 2);
    StripField(s, 5, 2);
    assert s[0..0 + 4] == s[..4];
    assert s[0..] == s;
    StripField(s, 0, 4);
  }

  /** Stripping a matching string leaves its 14 digits. */
  lemma MatchedDigits(s: string)
    requires Matches(s)
    ensures StripSeparators(s) == Fields(s)
    ensures |Fields(s)| == 14 && AllDigits(Fields(s))
  {
    MatchedPieces(s);
    StripMatched(s);
    AllDigitsAppend(s[..4], s[5..7]);
    AllDigitsAppend(s[..4] + s[5..7], s[8..10]);
    AllDigitsAppend(s[..4] + s[5..7] + s[8..10], s[11..13]);
    AllDigitsAppend(s[..4] + s[5..7] + s[8..10] + s[11..13], s[14..16]);
    AllDigitsAppend(s[..4] + s[5..7] + s[8..10] + s[11..13] + s[14..16], s[17..]);
  }

  /** Six digit fields of widths 4, 2, 2, 2, 2, 2 with the separators between them. */
  function Joined(y: string, mo: string, da: string, h: string, mi: string, se: string, space: char): string {
    y + "-" + mo + "-" + da + [space] + h + ":" + mi + ":" + se
  }

  /** Digit fields of the right widths, joined, make a matching string whose fields they are. */
  lemma PiecesMatch(y: string, mo: string, da: string, h: string, mi: string, se: string, space: char)
    requires |y| == 4 && |mo| == 2 && |da| == 2 && |h| == 2 && |mi| == 2 && |se| == 2
    requires AllDigits(y) && AllDigits(mo) && AllDigits(da) && AllDigits(h) && AllDigits(mi) && AllDigits(se)
    requires IsJsSpace(space)
    ensures var s := Joined(y, mo, da, h, mi, se, space);
      && Matches(s) && s[10] == space && s[0] == y[0]
      && Fields(s) == y + mo + da + h + mi + se
  {
    var s := Joined(y, mo, da, h, mi, se, space);
    assert s[..4] == y && s[5..7] == mo && s[8..10] == da;
    assert s[11..13] == h && s[14..16] == mi && s[17..] == se;
    forall i | 0 <= i < 19 && !IsSeparatorPosition(i)
      ensures IsDigit(s[i])
    {
      if i < 4 { assert s[i] == s[..4][i]; }
      else if i < 7 { assert s[i] == s[5..7][i - 5]; }
      else if i < 10 { assert s[i] == s[8..10][i - 8]; }
      else if i < 13 { assert s[i] == s[11..13][i - 11]; }
      else if i < 16 { assert s[i] == s[14..16][i - 14]; }
      else { assert s[i] == s[17..][i - 17]; }
    }
  }

  /**
   * String, number, string: a matching string whose separator is a space and
   * whose year does not start with `0` comes back unchanged.
   */
  lemma StringRoundTrip(s: string)
    requires Matches(s) && s[10] == ' ' && s[0] != '0'
    ensures var d := StripSeparators(s);
      AllDigits(d) && Layout(NatToString(DigitsValue(d))) == s
  {
    MatchedDigits(s);
    CanonicalNumeralRoundTrip(Fields(s));
    FieldSlices(s);
  }

  /** The digits of a matching string with a space separator, laid out again, give the string back. */
  lemma FieldSlices(s: string)
    requires Matches(s) && s[10] == ' '
    ensures Layout(Fields(s)) == s
  {
    var d := Fields(s);
    assert d[..4] == s[..4] && d[4..6] == s[5..7] && d[6..8] == s[8..10];
    assert d[8..10] == s[11..13] && d[10..12] == s[14..16] && d[12..] == s[17..];
    assert s == Joined(s[..4], s[5..7], s[8..10], s[11..13], s[14..16], s[17..], ' ');
  }

  /**
   * Number, string, number: a 14-digit number is laid out as a matching
   * string, and that string converts back to the number.
   */
  lemma NumberRoundTrip(n: nat)
    requires Pow10(13) <= n < Pow10(14)
    ensures Matches(Layout(NatToString(n)))
    ensures var d := StripSeparators(Layout(NatToString(n)));
      AllDigits(d) && DigitsValue(d) == n
  {
    NatToStringLength(n, 14);
    NatToStringValue(n);
    LayoutFourteen(NatToString(n));
  }

  /** Fourteen digits are laid out as a matching string whose separators strip off again. */
  lemma LayoutFourteen(d: string)
    requires |d| == 14 && AllDigits(d)
    ensures Matches(Layout(d)) && StripSeparators(Layout(d)) == d
  {
    var y, mo, da, h, mi, se := d[..4], d[4..6], d[6..8], d[8..10], d[10..12], d[12..];
    assert Layout(d) == Joined(y, mo, da, h, mi, se, ' ');
    PiecesMatch(y, mo, da, h, mi, se, ' ');
    MatchedDigits(Layout(d));
    assert y + mo + da + h + mi + se == d;
  }

  /** Only 14-digit numbers are laid out as something the string direction accepts. */
  lemma LayoutMatchesOnlyFourteenDigits(d: string)
    requires Matches(Layout(d))
    ensures |d| == 14
  {
  }

  // ---------------------------------------------------------------------
  // DateToString, DateTimeToString, DateToStandardString
  // ---------------------------------------------------------------------

  /** What a `Date` object reports: the month counts from 0, as `getMonth()` does. */
  datatype DateFields = DateFields(year: int, month: nat, day: nat, hours: nat, minutes: nat, seconds: nat)
  {
    predicate InRange() {
      month < 12 && 1 <= day <= 31 && hours < 24 && minutes < 60 && seconds < 60
    }
  }

  type Date = d: DateFields | d.InRange() witness DateFields(1970, 0, 1, 0, 0, 0)

  /** A `typeof` answer other than `'object'`: the values the formatters refuse. */
  type OtherTypeName = t: string | t != "object" witness "undefined"

  /** The argument of the formatters: a `Date`, or a value whose `typeof` is not `'object'`. */
  datatype DateArg = DateObject(date: Date) | NotAnObject(typeName: OtherTypeName)

  /** `v < 10 ? '0' + v : v`, then converted to a string by concatenation. */
  function ZeroPad(v: nat): (s: string)
    ensures v < 100 ==> |s| == 2 && AllDigits(s) && DigitsValue(s) == v
    ensures v >= 10 ==> s == NatToString(v)
  {
    NatToStringValue(v);
    if v < 10 then
      assert "0" + NatToString(v) == ['0', DigitChar(v)];
      "0" + NatToString(v)
    else
      if v < 100 then NatToStringLength(v, 2); NatToString(v)
      else NatToString(v)
  }

  /** `YYYY-MM-DD`: the year as written by `String`, month and day padded to two digits. */
  function DatePart(d: Date): string {
    IntToString(d.year) + "-" + ZeroPad(d.month + 1) + "-" + ZeroPad(d.day)
  }

  function Rejected(caller: string, typeName: string): string {
    caller + ": requires Date but " + typeName
  }

  /** `DateToString(DateObj)`. */
  function DateToString(arg: DateArg): (r: Result<string>)
    ensures arg.NotAnObject? ==> r == TypeError(Rejected("DateToString", arg.typeName))
    ensures arg.DateObject? ==> r == Ok(DatePart(arg.date))
  {
    match arg
    case NotAnObject(t) => TypeError(Rejected("DateToString", t))
    case DateObject(d) => Ok(DatePart(d))
  }

  /** `DateTimeToString(DateObj, showSEC)`: `YYYY-MM-DD HH:MM`, then `:SS` when asked. */
  function DateTimeToString(arg: DateArg, showSec: bool): (r: Result<string>)
    ensures arg.NotAnObject? ==> r == TypeError(Rejected("DateTimeToString", arg.typeName))
    ensures arg.DateObject? ==>
      (var d := arg.date;
       var minutes := DatePart(d) + " " + ZeroPad(d.hours) + ":" + ZeroPad(d.minutes);
       r == Ok(if showSec then minutes + ":" + ZeroPad(d.seconds) else minutes))
  {
    match arg
    case NotAnObject(t) => TypeError(Rejected("DateTimeToString", t))
    case DateObject(d) =>
      var second := if showSec then (if d.seconds < 10 then ":0" + NatToString(d.seconds)
                                      else ":" + NatToString(d.seconds)) else "";
      var minutes := DatePart(d) + " " + ZeroPad(d.hours) + ":" + ZeroPad(d.minutes);
      assert showSec ==> minutes + second == minutes + ":" + ZeroPad(d.seconds);
      assert !showSec ==> minutes + second == minutes;
      Ok(minutes + second)
  }

  /** `DateToStandardString(DateObj)`: the date at midnight in ISO 8601 form. */
  function DateToStandardString(arg: DateArg): (r: Result<string>)
    ensures arg.NotAnObject? ==> r == TypeError(Rejected("DateToStandardString", arg.typeName))
    ensures arg.DateObject? ==> r == Ok(DatePart(arg.date) + "T00:00:00.000Z")
  {
    match arg
    case NotAnObject(t) => TypeError(Rejected("DateToStandardString", t))
    case DateObject(d) => Ok(DatePart(d) + "T00:00:00.000Z")
  }

  /**
   * For a four-digit year, `DateTimeToString` with seconds writes exactly the
   * form the conversion accepts, and the conversion reads back every field.
   */
  lemma DateTimeConverts(d: Date)
    requires 1000 <= d.year <= 9999
    ensures var s := DateTimeToString(DateObject(d), true).value;
      && Matches(s)
      && AllDigits(StripSeparators(s))
      && DigitsValue(StripSeparators(s)) ==
         d.year * Pow10(10) + (d.month + 1) * Pow10(8) + d.day * Pow10(6)
         + d.hours * Pow10(4) + d.minutes * Pow10(2) + d.seconds
  {
    var s := DateTimeToString(DateObject(d), true).value;
    var y := IntToString(d.year);
    NatToStringLength(d.year, 4);
    NatToStringValue(d.year);
    var mo, da, h, mi, se := ZeroPad(d.month + 1), ZeroPad(d.day), ZeroPad(d.hours), ZeroPad(d.minutes),
      ZeroPad(d.seconds);
    assert s == Joined(y, mo, da, h, mi, se, ' ');
    PiecesMatch(y, mo, da, h, mi, se, ' ');
    MatchedDigits(s);
    FieldsValue(y, mo, da, h, mi, se);
  }

  /** The number of six digit fields of widths 4, 2, 2, 2, 2, 2, read as one numeral. */
  lemma FieldsValue(y: string, mo: string, da: string, h: string, mi: string, se: string)
    requires |mo| == 2 && |da| == 2 && |h| == 2 && |mi| == 2 && |se| == 2
    requires AllDigits(y) && AllDigits(mo) && AllDigits(da) && AllDigits(h) && AllDigits(mi) && AllDigits(se)
    ensures AllDigits(y + mo + da + h + mi + se)
    ensures DigitsValue(y + mo + da + h + mi + se) ==
      DigitsValue(y) * Pow10(10) + DigitsValue(mo) * Pow10(8) + DigitsValue(da) * Pow10(6)
      + DigitsValue(h) * Pow10(4) + DigitsValue(mi) * Pow10(2) + DigitsValue(se)
  {
    DigitsValueAppend(y, mo);
    DigitsValueAppend(y + mo, da);
    DigitsValueAppend(y + mo + da, h);
    DigitsValueAppend(y + mo + da + h, mi);
    DigitsValueAppend(y + mo + da + h + mi, se);
    var p2 := Pow10(2);
    assert p2 == 100;
    assert Pow10(4) == p2 * p2;
    assert Pow10(6) == Pow10(4) * p2;
    assert Pow10(8) == Pow10(6) * p2;
    assert Pow10(10) == Pow10(8) * p2;
  }

  /** Padding to two digits loses nothing: the digits read back as the field. */
  lemma ZeroPadReadsBack(v: nat)
    requires v < 100
    ensures |ZeroPad(v)| == 2 && AllDigits(ZeroPad(v)) && DigitsValue(ZeroPad(v)) == v
    ensures v < 10 ==> ZeroPad(v)[0] == '0'
  {
  }
}
