/**
 * The pure and sequential helpers of picture.js: `getThumbnailPath`, the
 * thumbnail-suffix strip `src.replace(/(_)\d+(x)\d+(.)/, '.')`,
 * `deleteImageProc` and `getOffset`.
 */
module Picture {
  import opened Common

  // ---------------------------------------------------------------------
  // getThumbnailPath
  // ---------------------------------------------------------------------

  /** `s.lastIndexOf(c)`: the last position holding `c`, or -1. */
  function LastIndexOf(s: string, c: char): (i: int)
    ensures -1 <= i < |s|
    ensures i == -1 <==> c !in s
    ensures i >= 0 ==> s[i] == c && c !in s[i + 1..]
  {
    if s == [] then -1
    else if s[|s| - 1] == c then |s| - 1
    else
      var i := LastIndexOf(s[..|s| - 1], c);
      assert s[..|s| - 1] + [s[|s| - 1]] == s;
      i
  }

  /** Clamping an index into `0..|s|`, as `substring` does. */
  function Clamp(i: int, n: nat): (r: nat)
    ensures r <= n
    ensures 0 <= i <= n ==> r == i
  {
    if i < 0 then 0 else if i > n then n else i
  }

  /** `s.substring(start, end)`: both ends clamped, swapped when out of order. */
  function Substring(s: string, start: int, end: int): (r: string)
    ensures var a, b := Clamp(start, |s|), Clamp(end, |s|);
      r == if a <= b then s[a..b] else s[b..a]
  {
    var a, b := Clamp(start, |s|), Clamp(end, |s|);
    if a <= b then s[a..b] else s[b..a]
  }

  /** `'_' + width + 'x' + height`. */
  function Suffix(width: int, height: int): (s: string)
    ensures |s| >= 4 && s[0] == '_'
  {
    "_" + IntToString(width) + "x" + IntToString(height)
  }

  /** `insertBeforeIndex(thisstr, index, string)`: the text up to `index`, the segment, the rest. */
  function InsertBeforeIndex(thisstr: string, index: int, segment: string): (r: string)
    ensures |r| == |thisstr| + |segment|
  {
    Substring(thisstr, 0, index) + segment + Substring(thisstr, index, |thisstr|)
  }

  /** `getThumbnailPath(oriPath, width, height)`. */
  function GetThumbnailPath(oriPath: string, width: int, height: int): (r: string)
    ensures |r| == |oriPath| + |Suffix(width, height)|
  {
    InsertBeforeIndex(oriPath, LastIndexOf(oriPath, '.'), Suffix(width, height))
  }

  /**
   * Inserting before the last dot: the segment goes immediately before it,
   * the text before and after unchanged; without a dot it goes in front.
   */
  lemma InsertBeforeLastDot(oriPath: string, segment: string)
    ensures var i := LastIndexOf(oriPath, '.');
      && ('.' in oriPath ==>
            && oriPath[i] == '.' && '.' !in oriPath[i + 1..]
            && InsertBeforeIndex(oriPath, i, segment) == oriPath[..i] + segment + oriPath[i..])
      && ('.' !in oriPath ==> InsertBeforeIndex(oriPath, i, segment) == segment + oriPath)
  {
    var i := LastIndexOf(oriPath, '.');
    if '.' !in oriPath {
      assert Substring(oriPath, 0, i) == [];
      assert Substring(oriPath, i, |oriPath|) == oriPath;
    }
  }

  /**
   * The suffix goes immediately before the last dot, the text before and
   * after it unchanged; without a dot it goes in front of the whole path.
   */
  lemma ThumbnailPlacement(oriPath: string, width: int, height: int)
    ensures var i, s := LastIndexOf(oriPath, '.'), Suffix(width, height);
      && ('.' in oriPath ==>
            && oriPath[i] == '.' && '.' !in oriPath[i + 1..]
            && GetThumbnailPath(oriPath, width, height) == oriPath[..i] + s + oriPath[i..])
      && ('.' !in oriPath ==> GetThumbnailPath(oriPath, width, height) == s + oriPath)
  {
    InsertBeforeLastDot(oriPath, Suffix(width, height));
  }

  /** Cutting the inserted segment out again gives the text back. */
  lemma SegmentCutOut(oriPath: string, segment: string)
    ensures var t := InsertBeforeIndex(oriPath, LastIndexOf(oriPath, '.'), segment);
      var at := if '.' in oriPath then LastIndexOf(oriPath, '.') else 0;
      && |t| == |oriPath| + |segment|
      && t[at..at + |segment|] == segment
      && t[..at] + t[at + |segment|..] == oriPath
  {
    InsertBeforeLastDot(oriPath, segment);
    var at := if '.' in oriPath then LastIndexOf(oriPath, '.') else 0;
    assert oriPath[..at] + oriPath[at..] == oriPath;
    CutPiece(oriPath[..at], segment, oriPath[at..]);
  }

  lemma CutPiece(a: string, segment: string, b: string)
    ensures var t := a + segment + b;
      && t[|a|..|a| + |segment|] == segment
      && t[..|a|] + t[|a| + |segment|..] == a + b
  {
    var t := a + segment + b;
    assert t[..|a|] == a;
    assert t[|a| + |segment|..] == b;
  }

  /** The inserted suffix is all that changes: cutting it out again gives the path back. */
  lemma ThumbnailInsertsSegment(oriPath: string, width: int, height: int)
    ensures var t, s := GetThumbnailPath(oriPath, width, height), Suffix(width, height);
      var at := if '.' in oriPath then LastIndexOf(oriPath, '.') else 0;
      && |t| == |oriPath| + |s|
      && t[at..at + |s|] == s
      && t[..at] + t[at + |s|..] == oriPath
  {
    SegmentCutOut(oriPath, Suffix(width, height));
  }

  // ---------------------------------------------------------------------
  // The strip: replace(/(_)\d+(x)\d+(.)/, '.')
  // ---------------------------------------------------------------------

  /** The characters `.` does not match: the line terminators. */
  predicate IsLineTerminator(c: char) {
    c == '\n' || c == '\r' || c as int == 0x2028 || c as int == 0x2029
  }

  /** The length of the run of digits starting at `j`. */
  function DigitRun(t: string, j: nat): (n: nat)
    requires j <= |t|
    ensures j + n <= |t|
    decreases |t| - j
  {
    if j < |t| && IsDigit(t[j]) then 1 + DigitRun(t, j + 1) else 0
  }

  /**
   * The length of the match of `(_)\d+(x)\d+(.)` at the start of `t`, if any.
   * Both `\d+` are greedy; the first can only match its whole run (the next
   * character must be `x`), the second gives back its last digit when nothing
   * but a line terminator or the end follows it, so that `.` can take that digit.
   */
  function MatchLen(t: string): (m: Option<nat>)
    ensures m.Some? ==> 5 <= m.value <= |t| && t[0] == '_'
  {
    if t == [] || t[0] != '_' then None else MatchFirstRun(t, DigitRun(t, 1))
  }

  /** After `_` and a first run of `a` digits: the `x`, then the second run. */
  function MatchFirstRun(t: string, a: nat): (m: Option<nat>)
    requires 1 + a <= |t|
    ensures m.Some? ==> 5 <= m.value <= |t|
  {
    if a == 0 || 1 + a == |t| || t[1 + a] != 'x' then None
    else MatchSecondRun(t, 2 + a, DigitRun(t, 2 + a))
  }

  /** A second run of `b` digits from `j`, then one character other than a line terminator. */
  function MatchSecondRun(t: string, j: nat, b: nat): (m: Option<nat>)
    requires j + b <= |t|
    ensures m.Some? ==> j + 2 <= m.value <= |t|
  {
    var e := j + b;
    if b == 0 then None
    else if e < |t| && !IsLineTerminator(t[e]) then Some(e + 1)
    else if b >= 2 then Some(e)
    else None
  }

  /** The leftmost position at or after `k` where the pattern matches, with the match length. */
  function FirstMatch(s: string, k: nat): (r: Option<(nat, nat)>)
    requires k <= |s|
    ensures r.Some? ==> k <= r.value.0 <= |s| && MatchLen(s[r.value.0..]) == Some(r.value.1)
    ensures r.Some? ==> forall j :: k <= j < r.value.0 ==> MatchLen(s[j..]).None?
    ensures r.None? ==> forall j :: k <= j <= |s| ==> MatchLen(s[j..]).None?
    decreases |s| - k
  {
    match MatchLen(s[k..])
    case Some(len) => Some((k, len))
    case None => if k == |s| then None else FirstMatch(s, k + 1)
  }

  /** `src.replace(/(_)\d+(x)\d+(.)/, '.')`: the leftmost match, if any, becomes a single dot. */
  function StripThumbnailSuffix(src: string): (r: string)
    ensures FirstMatch(src, 0).None? ==> r == src
    ensures FirstMatch(src, 0).Some? ==>
      var (k, len) := FirstMatch(src, 0).value;
      r == src[..k] + "." + src[k + len..]
  {
    match FirstMatch(src, 0)
    case None => src
    case Some((k, len)) => src[..k] + "." + src[k + len..]
  }

  /** A character that neither extends a digit run, nor stands for the `x`, nor stops `.`. */
  predicate Neutral(c: char) {
    !IsDigit(c) && c != 'x' && !IsLineTerminator(c)
  }

  lemma {:induction false} DigitRunPrefix(u: string, x: string, j: nat)
    requires j <= |u| && x != [] && !IsDigit(x[0])
    ensures DigitRun(u + x, j) == DigitRun(u, j)
    decreases |u| - j
  {
    if j < |u| {
      assert (u + x)[j] == u[j];
      if IsDigit(u[j]) {
        DigitRunPrefix(u, x, j + 1);
      }
    } else {
      assert (u + x)[j] == x[0];
    }
  }

  /** The second-run stage sees only `u` and the neutral first character after it. */
  lemma SecondRunLocal(u: string, x: string, y: string, j: nat)
    requires j <= |u| && x != [] && y != [] && Neutral(x[0]) && Neutral(y[0])
    ensures MatchSecondRun(u + x, j, DigitRun(u + x, j)) == MatchSecondRun(u + y, j, DigitRun(u + y, j))
  {
    DigitRunPrefix(u, x, j);
    DigitRunPrefix(u, y, j);
    var e := j + DigitRun(u, j);
    if e < |u| {
      assert (u + x)[e] == u[e] == (u + y)[e];
    } else {
      assert (u + x)[e] == x[0] && (u + y)[e] == y[0];
    }
  }

  /** The first-run stage sees only `u` and the neutral first character after it. */
  lemma FirstRunLocal(u: string, x: string, y: string)
    requires u != [] && x != [] && y != [] && Neutral(x[0]) && Neutral(y[0])
    ensures MatchFirstRun(u + x, DigitRun(u + x, 1)) == MatchFirstRun(u + y, DigitRun(u + y, 1))
  {
    DigitRunPrefix(u, x, 1);
    DigitRunPrefix(u, y, 1);
    var a := DigitRun(u, 1);
    if a != 0 && 1 + a < |u| {
      assert (u + x)[1 + a] == u[1 + a] == (u + y)[1 + a];
      if u[1 + a] == 'x' {
        SecondRunLocal(u, x, y, 2 + a);
      }
    } else if a != 0 {
      assert (u + x)[1 + a] == x[0] && (u + y)[1 + a] == y[0];
    }
  }

  /**
   * Whether the pattern matches at the start of `u + x` depends on `u` and on
   * nothing of `x` beyond its first character being neutral.
   */
  lemma MatchLocal(u: string, x: string, y: string)
    requires u != [] && x != [] && y != [] && Neutral(x[0]) && Neutral(y[0])
    ensures MatchLen(u + x) == MatchLen(u + y)
  {
    assert (u + x)[0] == u[0] == (u + y)[0];
    if u[0] == '_' {
      FirstRunLocal(u, x, y);
    }
  }

  /** A run of digits between two non-digit contexts has exactly its own length. */
  lemma DigitRunOver(pre: string, digits: string, post: string)
    requires AllDigits(digits)
    requires post == [] || !IsDigit(post[0])
    ensures DigitRun(pre + digits + post, |pre|) == |digits|
  {
    var t := pre + digits + post;
    forall k | |pre| <= k < |pre| + |digits|
      ensures IsDigit(t[k])
    {
      assert t[k] == digits[k - |pre|];
    }
    if post != [] {
      assert t[|pre| + |digits|] == post[0];
    }
    DigitRunExact(t, |pre|, |digits|);
  }

  /** The runs and separators of `_<digits>x<digits>` followed by a dot. */
  lemma SegmentRuns(w: string, h: string, rest: string)
    requires AllDigits(w) && AllDigits(h)
    requires rest != [] && rest[0] == '.'
    ensures var t := "_" + w + "x" + h + rest;
      && |t| == |w| + |h| + 2 + |rest|
      && DigitRun(t, 1) == |w| && t[1 + |w|] == 'x'
      && DigitRun(t, 2 + |w|) == |h| && t[2 + |w| + |h|] == '.'
  {
    var a := "_" + w + "x";
    var t := a + h + rest;
    assert t == "_" + w + ("x" + h + rest);
    DigitRunOver("_", w, "x" + h + rest);
    DigitRunOver(a, h, rest);
    assert t[1 + |w|] == a[1 + |w|];
    assert t[|a| + |h|] == rest[0];
  }

  /** `_<digits>x<digits>` followed by a dot matches up to and including the dot. */
  lemma SegmentMatches(w: string, h: string, rest: string)
    requires w != [] && h != [] && AllDigits(w) && AllDigits(h)
    requires rest != [] && rest[0] == '.'
    ensures ("_" + w + "x" + h)[0] == '_'
    ensures MatchLen("_" + w + "x" + h + rest) == Some(|w| + |h| + 3)
  {
    var t := "_" + w + "x" + h + rest;
    SegmentRuns(w, h, rest);
    assert ("_" + w + "x" + h)[0] == t[0] == '_';
    assert MatchFirstRun(t, |w|) == MatchSecondRun(t, 2 + |w|, |h|);
  }

  lemma {:induction false} DigitRunExact(t: string, j: nat, n: nat)
    requires j + n <= |t|
    requires forall k :: j <= k < j + n ==> IsDigit(t[k])
    requires j + n == |t| || !IsDigit(t[j + n])
    ensures DigitRun(t, j) == n
    decreases n
  {
    if n > 0 {
      DigitRunExact(t, j + 1, n - 1);
    }
  }

  /** No match anywhere. */
  predicate NoMatch(s: string) {
    forall k :: 0 <= k <= |s| ==> MatchLen(s[k..]).None?
  }

  lemma SliceSplit(p: string, s: string, r: string, k: nat)
    requires k <= |p|
    ensures (p + s + r)[k..] == p[k..] + (s + r)
    ensures (p + r)[k..] == p[k..] + r
  {
  }

  /**
   * Scanning from `k`, a segment that starts with `_` and matches, inserted
   * before a dot in a path without a match, is the first match found: no match
   * can start earlier.
   */
  lemma {:induction false} SegmentFoundFirst(p: string, s: string, r: string, k: nat)
    requires k <= |p|
    requires s != [] && s[0] == '_' && r != [] && r[0] == '.'
    requires NoMatch(p + r) && MatchLen(s + r).Some?
    ensures FirstMatch(p + s + r, k) == Some((|p|, MatchLen(s + r).value))
    decreases |p| - k
  {
    SliceSplit(p, s, r, k);
    if k < |p| {
      assert MatchLen((p + r)[k..]).None?;
      assert (s + r)[0] == '_';
      MatchLocal(p[k..], s + r, r);
      SegmentFoundFirst(p, s, r, k + 1);
    } else {
      assert p[k..] + (s + r) == s + r;
    }
  }

  /**
   * Stripping a segment that starts with `_` and matches exactly up to the
   * dot after it, from a path without a match, gives the path back.
   */
  lemma StripSegment(p: string, s: string, r: string)
    requires s != [] && s[0] == '_' && r != [] && r[0] == '.'
    requires NoMatch(p + r) && MatchLen(s + r) == Some(|s| + 1)
    ensures StripThumbnailSuffix(p + s + r) == p + r
  {
    SegmentFoundFirst(p, s, r, 0);
    SlicesAround(p, s, r);
  }

  lemma SlicesAround(p: string, s: string, r: string)
    requires r != []
    ensures (p + s + r)[..|p|] == p
    ensures (p + s + r)[|p| + |s| + 1..] == r[1..]
    ensures p + [r[0]] + r[1..] == p + r
  {
    assert [r[0]] + r[1..] == r;
  }

  /**
   * The strip undoes `getThumbnailPath` for non-negative sizes, a path with
   * a dot, and a path in which the pattern matches nowhere.
   */
  lemma StripUndoesThumbnail(oriPath: string, width: nat, height: nat)
    requires '.' in oriPath && NoMatch(oriPath)
    ensures StripThumbnailSuffix(GetThumbnailPath(oriPath, width, height)) == oriPath
  {
    DotTail(oriPath);
    SuffixMatchesBeforeDot(width, height, oriPath[LastIndexOf(oriPath, '.')..]);
    StripUndoesInsertion(oriPath, Suffix(width, height));
  }

  /** The text from the last dot on starts with that dot. */
  lemma DotTail(oriPath: string)
    requires '.' in oriPath
    ensures var r := oriPath[LastIndexOf(oriPath, '.')..]; r != [] && r[0] == '.'
  {
  }

  /**
   * A segment that starts with `_` and, followed by the last dot, matches
   * exactly up to that dot is removed again by the strip.
   */
  lemma StripUndoesInsertion(oriPath: string, segment: string)
    requires '.' in oriPath && NoMatch(oriPath)
    requires segment != [] && segment[0] == '_'
    requires MatchLen(segment + oriPath[LastIndexOf(oriPath, '.')..]) == Some(|segment| + 1)
    ensures StripThumbnailSuffix(InsertBeforeIndex(oriPath, LastIndexOf(oriPath, '.'), segment)) == oriPath
  {
    InsertBeforeLastDot(oriPath, segment);
    var i := LastIndexOf(oriPath, '.');
    assert oriPath[..i] + oriPath[i..] == oriPath;
    StripSegment(oriPath[..i], segment, oriPath[i..]);
  }

  /** For non-negative sizes the suffix, followed by a dot, matches exactly up to and including the dot. */
  lemma SuffixMatchesBeforeDot(width: nat, height: nat, rest: string)
    requires rest != [] && rest[0] == '.'
    ensures var s := Suffix(width, height);
      s != [] && s[0] == '_' && MatchLen(s + rest) == Some(|s| + 1)
  {
    SuffixOfSizes(width, height);
    SegmentMatches(NatToString(width), NatToString(height), rest);
  }

  /** For non-negative sizes the suffix is `_`, a numeral, `x`, a numeral. */
  lemma SuffixOfSizes(width: nat, height: nat)
    ensures var w, h := NatToString(width), NatToString(height);
      && w != [] && h != [] && AllDigits(w) && AllDigits(h)
      && Suffix(width, height) == "_" + w + "x" + h
  {
    NatToStringShape(width);
    NatToStringShape(height);
  }

  /** A path without the pattern is left alone by the strip. */
  lemma StripWithoutMatch(src: string)
    requires NoMatch(src)
    ensures StripThumbnailSuffix(src) == src
  {
  }

  // ---------------------------------------------------------------------
  // deleteImageProc
  // ---------------------------------------------------------------------

  /** The position `splice` starts at: a negative start counts from the end, both clamped. */
  function SpliceStart(start: int, length: nat): (s: nat)
    ensures s <= length
  {
    if start < 0 then (if length + start < 0 then 0 else length + start)
    else if start > length then length
    else start
  }

  /** The array after `arr.splice(start, 1)`: one element removed at the start position, if there is one. */
  function SpliceOne<T>(arr: seq<T>, start: int): (r: seq<T>)
    ensures var s := SpliceStart(start, |arr|);
      && (s < |arr| ==> |r| == |arr| - 1 && multiset(r) + multiset{arr[s]} == multiset(arr))
      && (s == |arr| ==> r == arr)
      && (forall j :: 0 <= j < s && j < |r| ==> r[j] == arr[j])
      && (forall j :: s <= j < |r| ==> r[j] == arr[j + 1])
  {
    var s := SpliceStart(start, |arr|);
    if s < |arr| then
      assert arr == arr[..s] + [arr[s]] + arr[s + 1..];
      arr[..s] + arr[s + 1..]
    else arr
  }

  /** `deleteImageProc` with an index inside the array removes exactly that element. */
  lemma SpliceOneInside<T>(arr: seq<T>, index: int)
    requires 0 <= index < |arr|
    ensures SpliceOne(arr, index) == arr[..index] + arr[index + 1..]
  {
  }

  /** A negative index counts from the end: `-1` removes the last element. */
  lemma SpliceOneNegative<T>(arr: seq<T>, index: int)
    requires -|arr| <= index < 0
    ensures SpliceOne(arr, index) == arr[..|arr| + index] + arr[|arr| + index + 1..]
  {
  }

  /** The image lists of a container object, by property name. */
  class ParamContainer {
    var images: map<string, seq<string>>

    constructor(images: map<string, seq<string>>)
      ensures this.images == images
    {
      this.images := images;
    }

    /**
     * `deleteImageProc(index, paramContainer, imageProName)`: the named list
     * loses the element at `index`; a missing list is `undefined`, and
     * calling `splice` on it throws.
     */
    method DeleteImageProc(index: int, imageProName: string) returns (r: Result<()>)
      modifies this
      ensures imageProName !in old(images) ==> r.TypeError? && images == old(images)
      ensures imageProName in old(images) ==>
        r == Ok(()) && images == old(images)[imageProName := SpliceOne(old(images)[imageProName], index)]
    {
      if imageProName !in images {
        return TypeError(UndefinedSpliceMessage);
      }
      images := images[imageProName := SpliceOne(images[imageProName], index)];
      return Ok(());
    }
  }

  const UndefinedSpliceMessage := "Cannot read properties of undefined (reading 'splice')"

  // ---------------------------------------------------------------------
  // getOffset
  // ---------------------------------------------------------------------

  /** The offset and border measures of one element. */
  datatype Box = Box(offsetTop: int, offsetLeft: int, clientTop: int, clientLeft: int)

  /** What the ancestors add to `left`: offsets, plus borders unless the legacy flag is set. */
  function SumLeft(ancestors: seq<Box>, legacy: bool): int {
    if ancestors == [] then 0
    else
      var b := ancestors[|ancestors| - 1];
      SumLeft(ancestors[..|ancestors| - 1], legacy) + b.offsetLeft + (if legacy then 0 else b.clientLeft)
  }

  /** What the ancestors add to `top`. */
  function SumTop(ancestors: seq<Box>, legacy: bool): int {
    if ancestors == [] then 0
    else
      var b := ancestors[|ancestors| - 1];
      SumTop(ancestors[..|ancestors| - 1], legacy) + b.offsetTop + (if legacy then 0 else b.clientTop)
  }

  /**
   * `getOffset(ele)`: `ancestors` is the `offsetParent` chain of `ele`,
   * nearest first, and `legacy` the user-agent test of line 14.
   */
  method GetOffset(ele: Box, ancestors: seq<Box>, legacy: bool) returns (x: int, y: int)
    ensures x == ele.offsetLeft + SumLeft(ancestors, legacy)
    ensures y == ele.offsetTop + SumTop(ancestors, legacy)
  {
    var top := ele.offsetTop;
    var left := ele.offsetLeft;
    var i := 0;
    while i < |ancestors|
      invariant 0 <= i <= |ancestors|
      invariant left == ele.offsetLeft + SumLeft(ancestors[..i], legacy)
      invariant top == ele.offsetTop + SumTop(ancestors[..i], legacy)
    {
      var parent := ancestors[i];
      assert ancestors[..i + 1][..i] == ancestors[..i];
      if legacy {
        top := top + parent.offsetTop;
        left := left + parent.offsetLeft;
      } else {
        top := top + parent.offsetTop + parent.clientTop;
        left := left + parent.offsetLeft + parent.clientLeft;
      }
      i := i + 1;
    }
    assert ancestors[..i] == ancestors;
    return left, top;
  }

  function ClientLeftTotal(ancestors: seq<Box>): int {
    if ancestors == [] then 0
    else ClientLeftTotal(ancestors[..|ancestors| - 1]) + ancestors[|ancestors| - 1].clientLeft
  }

  function ClientTopTotal(ancestors: seq<Box>): int {
    if ancestors == [] then 0
    else ClientTopTotal(ancestors[..|ancestors| - 1]) + ancestors[|ancestors| - 1].clientTop
  }

  /** The legacy flag drops exactly the ancestors' borders. */
  lemma {:induction false} LegacyDropsBorders(ancestors: seq<Box>)
    ensures SumLeft(ancestors, false) == SumLeft(ancestors, true) + ClientLeftTotal(ancestors)
    ensures SumTop(ancestors, false) == SumTop(ancestors, true) + ClientTopTotal(ancestors)
  {
    if ancestors != [] {
      LegacyDropsBorders(ancestors[..|ancestors| - 1]);
    }
  }

  /** Offsets add up along the chain: a longer chain adds the extra ancestors' share. */
  lemma {:induction false} SumLeftAppend(a: seq<Box>, b: seq<Box>, legacy: bool)
    ensures SumLeft(a + b, legacy) == SumLeft(a, legacy) + SumLeft(b, legacy)
    ensures SumTop(a + b, legacy) == SumTop(a, legacy) + SumTop(b, legacy)
  {
    if b == [] {
      assert a + b == a;
    } else {
      assert (a + b)[..|a + b| - 1] == a + b[..|b| - 1];
      SumLeftAppend(a, b[..|b| - 1], legacy);
    }
  }
}
