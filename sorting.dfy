/**
 * The comparator and stable-sort toolkit of common-tools.js:
 * `stableSorting`, `compareProperties` and `compareMultiProperties`.
 *
 * Elements are records mapping property keys to integer values; a comparator
 * on property values has type `(int, int) -> int` and follows the JavaScript
 * convention (negative: first argument goes first, zero: equal, positive:
 * second argument goes first). The hidden index marker that `stableSorting`
 * attaches to every element is an explicit `Tagged(rec, index)` pair here.
 */
module Sorting {
  import opened Common

  datatype Key = StringKey(name: string) | SymbolKey(id: nat) | NumberKey(n: int)

  datatype Record = Record(fields: map<Key, int>)

  /** The second argument of `stableSorting`: a property name, or any other JavaScript value. */
  datatype PropertyArg =
    | StringName(name: string)
    | SymbolName(id: nat)
    | NumberName(n: int)
    | OtherValue

  /** The first argument of `stableSorting`: an array (sorted in place), or any other value. */
  datatype SortTarget = ArrayTarget(items: array<Record>) | NotAnArray

  type Comparator = (int, int) -> int

  /** The default comparator of all three builders: subtraction. */
  function Subtract(x: int, y: int): (r: int)
    ensures r < 0 <==> x < y
    ensures r == 0 <==> x == y
  {
    x - y
  }

  /** What a comparator must be for a sort to be meaningful: a total preorder. */
  ghost predicate IsTotalPreorder(cmp: Comparator) {
    && (forall x, y :: cmp(x, y) < 0 <==> cmp(y, x) > 0)
    && (forall x, y, z :: cmp(x, y) <= 0 && cmp(y, z) <= 0 ==> cmp(x, z) <= 0)
  }

  lemma SubtractIsTotalPreorder()
    ensures IsTotalPreorder(Subtract)
  {
  }

  /** A preorder comparator never strictly separates equal values... */
  lemma PreorderReflexive(cmp: Comparator, x: int)
    requires IsTotalPreorder(cmp)
    ensures cmp(x, x) == 0
  {
    assert cmp(x, x) < 0 <==> cmp(x, x) > 0;
  }

  /** ...and a strict step followed by a weak step is strict. */
  lemma PreorderStrict(cmp: Comparator, x: int, y: int, z: int)
    requires IsTotalPreorder(cmp)
    requires cmp(x, y) <= 0 && cmp(y, z) <= 0
    requires cmp(x, y) < 0 || cmp(y, z) < 0
    ensures cmp(x, z) < 0
  {
    assert cmp(y, z) <= 0 && cmp(z, x) <= 0 ==> cmp(y, x) <= 0;
    assert cmp(z, x) <= 0 && cmp(x, y) <= 0 ==> cmp(z, y) <= 0;
  }

  // ---------------------------------------------------------------------
  // Argument checks of stableSorting
  // ---------------------------------------------------------------------

  /** Only strings, symbols and numbers are property names. */
  function AsKey(p: PropertyArg): (k: Option<Key>)
    ensures k.None? <==> p.OtherValue?
  {
    match p
    case StringName(s) => Some(StringKey(s))
    case SymbolName(id) => Some(SymbolKey(id))
    case NumberName(n) => Some(NumberKey(n))
    case OtherValue => None
  }

  predicate AllHave(s: seq<Record>, key: Key) {
    forall i :: 0 <= i < |s| ==> key in s[i].fields
  }

  const NotAnArrayMessage := "expected parameter 0 as an array"
  const BadPropertyMessage := "expected parameter 1 as a valid property name"
  const MissingPropertyMessage :=
    "expected parameter 1 as an property name which is owned by every elements in parameter 0"

  // ---------------------------------------------------------------------
  // The tie-breaking comparator and the sort it drives
  // ---------------------------------------------------------------------

  /** An element together with the index it had before sorting. */
  datatype Tagged = Tagged(rec: Record, index: int)

  /** The first pass of `stableSorting`: every element gets its position as tag. */
  function Tag(s: seq<Record>): (t: seq<Tagged>)
    ensures |t| == |s|
    ensures forall i :: 0 <= i < |s| ==> t[i] == Tagged(s[i], i)
  {
    seq(|s|, i requires 0 <= i < |s| => Tagged(s[i], i))
  }

  /** The last pass of `stableSorting`: the tags are dropped again. */
  function Untag(t: seq<Tagged>): (s: seq<Record>)
    ensures |s| == |t|
    ensures forall i :: 0 <= i < |t| ==> s[i] == t[i].rec
  {
    seq(|t|, i requires 0 <= i < |t| => t[i].rec)
  }

  /**
   * `a[PropertyToCompare]`. The sort only runs after the check that every
   * element owns the property, so the fallback value is never compared.
   */
  function Get(r: Record, key: Key): int {
    if key in r.fields then r.fields[key] else 0
  }

  /**
   * The wrapped comparator: the user comparator on the property values, and
   * the difference of the original indices when it answers exactly zero.
   */
  function TieBroken(key: Key, cmp: Comparator, x: Tagged, y: Tagged): int
  {
    var c := cmp(Get(x.rec, key), Get(y.rec, key));
    if c == 0 then x.index - y.index else c
  }

  /**
   * Inserting `x` after a sorted run, moving it left past every element the
   * wrapped comparator puts after it.
   */
  function Insert(key: Key, cmp: Comparator, s: seq<Tagged>, x: Tagged): (r: seq<Tagged>)
    ensures |r| == |s| + 1
  {
    if s == [] || TieBroken(key, cmp, s[|s| - 1], x) <= 0 then
      s + [x]
    else
      Insert(key, cmp, s[..|s| - 1], x) + [s[|s| - 1]]
  }

  /** Sorting by the wrapped comparator (insertion sort over growing prefixes). */
  function SortTagged(key: Key, cmp: Comparator, t: seq<Tagged>): (r: seq<Tagged>)
    ensures |r| == |t|
  {
    if t == [] then []
    else Insert(key, cmp, SortTagged(key, cmp, t[..|t| - 1]), t[|t| - 1])
  }

  /** What `stableSorting` leaves in the array: tag, sort with tie-break, untag. */
  function StableSort(s: seq<Record>, key: Key, cmp: Comparator): (r: seq<Record>)
    requires AllHave(s, key)
    ensures |r| == |s|
  {
    Untag(SortTagged(key, cmp, Tag(s)))
  }

  // ---------------------------------------------------------------------
  // stableSorting itself
  // ---------------------------------------------------------------------

  function Footprint(target: SortTarget): set<object> {
    if target.ArrayTarget? then {target.items} else {}
  }

  /**
   * `stableSorting(TargetArray, PropertyToCompare, cFx)`: all three argument
   * checks come before anything is tagged or moved; afterwards the array holds
   * `StableSort` of its old contents.
   */
  method StableSorting(target: SortTarget, property: PropertyArg, cmp: Comparator)
    returns (outcome: Result<()>)
    modifies Footprint(target)
    ensures target.NotAnArray? ==> outcome == TypeError(NotAnArrayMessage)
    ensures target.ArrayTarget? && property.OtherValue? ==>
      outcome == TypeError(BadPropertyMessage) && target.items[..] == old(target.items[..])
    ensures target.ArrayTarget? && !property.OtherValue? ==>
      var key := AsKey(property).value;
      && (!AllHave(old(target.items[..]), key) ==>
            outcome == TypeError(MissingPropertyMessage) && target.items[..] == old(target.items[..]))
      && (AllHave(old(target.items[..]), key) ==>
            outcome == Ok(()) && target.items[..] == StableSort(old(target.items[..]), key, cmp))
  {
    if target.NotAnArray? {
      return TypeError(NotAnArrayMessage);
    }
    var a := target.items;
    var maybeKey := AsKey(property);
    if maybeKey.None? {
      return TypeError(BadPropertyMessage);
    }
    var key := maybeKey.value;
    var owned := EveryOwns(a, key);
    if !owned {
      return TypeError(MissingPropertyMessage);
    }
    var tagged := TagAll(a);
    SortTaggedInPlace(tagged, key, cmp);
    UntagInto(tagged, a);
    return Ok(());
  }

  /** `TargetArray.some(v => !(PropertyToCompare in v))`, negated. */
  method EveryOwns(a: array<Record>, key: Key) returns (owned: bool)
    ensures owned <==> AllHave(a[..], key)
  {
    var i := 0;
    while i < a.Length
      invariant 0 <= i <= a.Length
      invariant AllHave(a[..i], key)
    {
      if key !in a[i].fields {
        return false;
      }
      i := i + 1;
    }
    assert a[..a.Length] == a[..];
    return true;
  }

  /** `TargetArray.forEach(v => v[indexSymbol] = index++)`, into a fresh array of pairs. */
  method TagAll(a: array<Record>) returns (tagged: array<Tagged>)
    ensures fresh(tagged)
    ensures tagged[..] == Tag(a[..])
  {
    tagged := new Tagged[a.Length](_ => Tagged(Record(map[]), 0));
    var i := 0;
    while i < a.Length
      invariant 0 <= i <= a.Length
      invariant tagged[..i] == Tag(a[..])[..i]
    {
      tagged[i] := Tagged(a[i], i);
      i := i + 1;
    }
    assert tagged[..a.Length] == tagged[..];
  }

  /** `TargetArray.forEach(v => delete v[indexSymbol])`: the array receives the untagged order. */
  method UntagInto(tagged: array<Tagged>, a: array<Record>)
    requires tagged.Length == a.Length
    modifies a
    ensures a[..] == Untag(tagged[..])
  {
    var i := 0;
    while i < a.Length
      invariant 0 <= i <= a.Length
      invariant a[..i] == Untag(tagged[..])[..i]
    {
      a[i] := tagged[i].rec;
      i := i + 1;
    }
    assert a[..a.Length] == a[..];
  }

  /** The in-place sort with the wrapped comparator (an insertion sort). */
  method SortTaggedInPlace(t: array<Tagged>, key: Key, cmp: Comparator)
    modifies t
    ensures t[..] == SortTagged(key, cmp, old(t[..]))
  {
    ghost var input := t[..];
    var i := 0;
    while i < t.Length
      invariant 0 <= i <= t.Length
      invariant t[..i] == SortTagged(key, cmp, input[..i])
      invariant forall k :: i <= k < t.Length ==> t[k] == input[k]
    {
      SortTaggedStep(key, cmp, input, i);
      InsertAt(t, i, key, cmp);
      i := i + 1;
    }
    assert input[..t.Length] == input;
    assert t[..t.Length] == t[..];
  }

  /** Sorting one more element is inserting it into the sorted prefix. */
  lemma SortTaggedStep(key: Key, cmp: Comparator, s: seq<Tagged>, i: nat)
    requires i < |s|
    ensures SortTagged(key, cmp, s[..i + 1]) == Insert(key, cmp, SortTagged(key, cmp, s[..i]), s[i])
  {
    assert s[..i + 1][..i] == s[..i];
  }

  /** One step of the insertion sort: `t[i]` moves left into the sorted run `t[..i]`. */
  method InsertAt(t: array<Tagged>, i: nat, key: Key, cmp: Comparator)
    requires i < t.Length
    modifies t
    ensures t[..i + 1] == Insert(key, cmp, old(t[..i]), old(t[i]))
    ensures forall k :: i < k < t.Length ==> t[k] == old(t[k])
  {
    var x := t[i];
    ghost var prefix := t[..i];
    var j := ShiftRight(t, i, key, cmp);
    InsertSplits(key, cmp, prefix, x);
    t[j] := x;
    ghost var inserted := prefix[..j] + [x] + prefix[j..];
    forall k | 0 <= k <= i
      ensures t[k] == inserted[k]
    {
      if k < j {
        assert inserted[k] == prefix[k];
      } else if k > j {
        assert inserted[k] == prefix[k - 1];
      }
    }
    assert t[..i + 1] == inserted;
  }

  /**
   * The inner loop of the insertion sort: every element of `t[..i]` that must
   * follow `t[i]` moves one place right; `j` is the place left free.
   */
  method ShiftRight(t: array<Tagged>, i: nat, key: Key, cmp: Comparator) returns (j: nat)
    requires i < t.Length
    modifies t
    ensures j == InsertPos(key, cmp, old(t[..i]), old(t[i]))
    ensures forall k :: 0 <= k < j ==> t[k] == old(t[k])
    ensures forall k :: j < k <= i ==> t[k] == old(t[k - 1])
    ensures forall k :: i < k < t.Length ==> t[k] == old(t[k])
  {
    var x := t[i];
    ghost var prefix := t[..i];
    j := i;
    assert prefix[..j] == prefix;
    while j > 0 && TieBroken(key, cmp, t[j - 1], x) > 0
      invariant 0 <= j <= i
      invariant forall k :: 0 <= k < j ==> t[k] == old(t[k])
      invariant forall k :: j < k <= i ==> t[k] == old(t[k - 1])
      invariant forall k :: i < k < t.Length ==> t[k] == old(t[k])
      invariant InsertPos(key, cmp, prefix, x) == InsertPos(key, cmp, prefix[..j], x)
    {
      assert prefix[..j][..j - 1] == prefix[..j - 1];
      t[j] := t[j - 1];
      j := j - 1;
    }
  }

  /** Where `Insert` puts `x`: after the last element of the run that need not follow it. */
  function InsertPos(key: Key, cmp: Comparator, s: seq<Tagged>, x: Tagged): (p: nat)
    ensures p <= |s|
  {
    if s == [] || TieBroken(key, cmp, s[|s| - 1], x) <= 0 then |s| else InsertPos(key, cmp, s[..|s| - 1], x)
  }

  /** `Insert` places `x` at `InsertPos` and keeps the run in order around it. */
  lemma {:induction false} InsertSplits(key: Key, cmp: Comparator, s: seq<Tagged>, x: Tagged)
    ensures var p := InsertPos(key, cmp, s, x);
      Insert(key, cmp, s, x) == s[..p] + [x] + s[p..]
  {
    if s != [] && TieBroken(key, cmp, s[|s| - 1], x) > 0 {
      var front := s[..|s| - 1];
      InsertSplits(key, cmp, front, x);
      var p := InsertPos(key, cmp, front, x);
      assert front[..p] == s[..p];
      assert front[p..] + [s[|s| - 1]] == s[p..];
    }
  }

  // ---------------------------------------------------------------------
  // What the sort guarantees
  // ---------------------------------------------------------------------

  /** Inserting adds exactly one element. */
  lemma {:induction false} InsertPermutes(key: Key, cmp: Comparator, s: seq<Tagged>, x: Tagged)
    ensures multiset(Insert(key, cmp, s, x)) == multiset(s) + multiset{x}
  {
    if s != [] && TieBroken(key, cmp, s[|s| - 1], x) > 0 {
      InsertPermutes(key, cmp, s[..|s| - 1], x);
      assert s == s[..|s| - 1] + [s[|s| - 1]];
    }
  }

  /** Sorting by the wrapped comparator only rearranges the tagged elements. */
  lemma {:induction false} SortTaggedPermutes(key: Key, cmp: Comparator, t: seq<Tagged>)
    ensures multiset(SortTagged(key, cmp, t)) == multiset(t)
  {
    if t != [] {
      SortTaggedPermutes(key, cmp, t[..|t| - 1]);
      InsertPermutes(key, cmp, SortTagged(key, cmp, t[..|t| - 1]), t[|t| - 1]);
      assert t == t[..|t| - 1] + [t[|t| - 1]];
    }
  }

  /** Ordered by the wrapped comparator, pair by pair. */
  ghost predicate SortedBy(key: Key, cmp: Comparator, t: seq<Tagged>) {
    forall i, j :: 0 <= i < j < |t| ==> TieBroken(key, cmp, t[i], t[j]) <= 0
  }

  predicate DistinctIndices(t: seq<Tagged>) {
    forall i, j :: 0 <= i < j < |t| ==> t[i].index != t[j].index
  }

  /** With a total-preorder comparator the wrapped comparator is a total order on tags. */
  lemma TieBrokenOrder(key: Key, cmp: Comparator, x: Tagged, y: Tagged, z: Tagged)
    requires IsTotalPreorder(cmp)
    ensures TieBroken(key, cmp, x, y) > 0 ==> TieBroken(key, cmp, y, x) < 0
    ensures TieBroken(key, cmp, x, y) <= 0 && TieBroken(key, cmp, y, z) <= 0 ==>
      TieBroken(key, cmp, x, z) <= 0
  {
    var vx, vy, vz := Get(x.rec, key), Get(y.rec, key), Get(z.rec, key);
    if TieBroken(key, cmp, x, y) <= 0 && TieBroken(key, cmp, y, z) <= 0 {
      if cmp(vx, vy) < 0 || cmp(vy, vz) < 0 {
        PreorderStrict(cmp, vx, vy, vz);
      }
    }
  }

  lemma {:induction false} InsertSorted(key: Key, cmp: Comparator, s: seq<Tagged>, x: Tagged)
    requires IsTotalPreorder(cmp)
    requires SortedBy(key, cmp, s)
    ensures SortedBy(key, cmp, Insert(key, cmp, s, x))
  {
    if s == [] {
    } else if TieBroken(key, cmp, s[|s| - 1], x) <= 0 {
      InsertAtEnd(key, cmp, s, x);
    } else {
      InsertSorted(key, cmp, s[..|s| - 1], x);
      InsertBeforeLast(key, cmp, s, x);
    }
  }

  /** `x` goes last when the last element does not come after it, and the result stays sorted. */
  lemma InsertAtEnd(key: Key, cmp: Comparator, s: seq<Tagged>, x: Tagged)
    requires IsTotalPreorder(cmp)
    requires SortedBy(key, cmp, s)
    requires s != [] && TieBroken(key, cmp, s[|s| - 1], x) <= 0
    ensures SortedBy(key, cmp, Insert(key, cmp, s, x))
  {
    forall i | 0 <= i < |s|
      ensures TieBroken(key, cmp, s[i], x) <= 0
    {
      TieBrokenOrder(key, cmp, s[i], s[|s| - 1], x);
    }
    SortedAppend(key, cmp, s, x);
  }

  /** `x` goes before the last element when that comes after it; sortedness carries over from the front. */
  lemma InsertBeforeLast(key: Key, cmp: Comparator, s: seq<Tagged>, x: Tagged)
    requires IsTotalPreorder(cmp)
    requires SortedBy(key, cmp, s)
    requires s != [] && TieBroken(key, cmp, s[|s| - 1], x) > 0
    requires SortedBy(key, cmp, Insert(key, cmp, s[..|s| - 1], x))
    ensures SortedBy(key, cmp, Insert(key, cmp, s, x))
  {
    var front, last := s[..|s| - 1], s[|s| - 1];
    var r := Insert(key, cmp, front, x);
    TieBrokenOrder(key, cmp, last, x, x);
    forall i | 0 <= i < |front|
      ensures TieBroken(key, cmp, front[i], last) <= 0
    {
      assert front[i] == s[i];
    }
    InsertBelow(key, cmp, front, x, last);
    SortedAppend(key, cmp, r, last);
    assert Insert(key, cmp, s, x) == r + [last];
  }

  /** A sorted sequence stays sorted when an element no smaller than all of it is appended. */
  lemma SortedAppend(key: Key, cmp: Comparator, s: seq<Tagged>, x: Tagged)
    requires SortedBy(key, cmp, s)
    requires forall i :: 0 <= i < |s| ==> TieBroken(key, cmp, s[i], x) <= 0
    ensures SortedBy(key, cmp, s + [x])
  {
    var t := s + [x];
    forall i, j | 0 <= i < j < |t|
      ensures TieBroken(key, cmp, t[i], t[j]) <= 0
    {
      assert t[i] == s[i];
      if j < |s| {
        assert t[j] == s[j];
      }
    }
  }

  /** An upper bound of a sequence and of `x` bounds the sequence with `x` inserted. */
  lemma InsertBelow(key: Key, cmp: Comparator, s: seq<Tagged>, x: Tagged, bound: Tagged)
    requires forall i :: 0 <= i < |s| ==> TieBroken(key, cmp, s[i], bound) <= 0
    requires TieBroken(key, cmp, x, bound) <= 0
    ensures forall i :: 0 <= i < |Insert(key, cmp, s, x)| ==> TieBroken(key, cmp, Insert(key, cmp, s, x)[i], bound) <= 0
  {
    var r := Insert(key, cmp, s, x);
    InsertPermutes(key, cmp, s, x);
    forall i | 0 <= i < |r|
      ensures TieBroken(key, cmp, r[i], bound) <= 0
    {
      assert r[i] in multiset(r);
      if r[i] != x {
        assert r[i] in multiset(s);
        var k :| 0 <= k < |s| && s[k] == r[i];
      }
    }
  }

  lemma {:induction false} SortTaggedSorted(key: Key, cmp: Comparator, t: seq<Tagged>)
    requires IsTotalPreorder(cmp)
    ensures SortedBy(key, cmp, SortTagged(key, cmp, t))
  {
    if t != [] {
      SortTaggedSorted(key, cmp, t[..|t| - 1]);
      InsertSorted(key, cmp, SortTagged(key, cmp, t[..|t| - 1]), t[|t| - 1]);
    }
  }

  /** Distinct tags stay distinct: the multiset of tags is preserved. */
  lemma DistinctFromMultiset(t: seq<Tagged>, u: seq<Tagged>)
    requires multiset(t) == multiset(u) && DistinctIndices(u)
    ensures DistinctIndices(t)
  {
    forall i, j | 0 <= i < j < |t|
      ensures t[i].index != t[j].index
    {
      if t[i].index == t[j].index {
        assert t[i] in multiset(u) && t[j] in multiset(u);
        var a :| 0 <= a < |u| && u[a] == t[i];
        var b :| 0 <= b < |u| && u[b] == t[j];
        assert a == b;
        var e := t[i];
        assert t == t[..i] + [e] + t[i + 1..j] + [e] + t[j + 1..];
        assert multiset(t)[e] >= 2;
        UniqueInDistinct(u, a);
        assert false;
      }
    }
  }

  lemma {:induction false} UniqueInDistinct(u: seq<Tagged>, a: nat)
    requires DistinctIndices(u) && a < |u|
    ensures multiset(u)[u[a]] == 1
  {
    var front, last := u[..|u| - 1], u[|u| - 1];
    assert u == front + [last];
    if a == |u| - 1 {
      assert last !in front;
    } else {
      UniqueInDistinct(front, a);
      assert last != u[a];
    }
  }

  /** Dropping tags commutes with inserting one element. */
  lemma {:induction false} UntagInsert(key: Key, cmp: Comparator, s: seq<Tagged>, x: Tagged)
    ensures multiset(Untag(Insert(key, cmp, s, x))) == multiset(Untag(s)) + multiset{x.rec}
  {
    if s == [] || TieBroken(key, cmp, s[|s| - 1], x) <= 0 {
      assert Untag(s + [x]) == Untag(s) + [x.rec];
    } else {
      var front, last := s[..|s| - 1], s[|s| - 1];
      UntagInsert(key, cmp, front, x);
      assert Untag(Insert(key, cmp, s, x)) == Untag(Insert(key, cmp, front, x)) + [last.rec];
      assert Untag(s) == Untag(front) + [last.rec];
    }
  }

  lemma {:induction false} UntagSortTagged(key: Key, cmp: Comparator, t: seq<Tagged>)
    ensures multiset(Untag(SortTagged(key, cmp, t))) == multiset(Untag(t))
  {
    if t != [] {
      var front := t[..|t| - 1];
      UntagSortTagged(key, cmp, front);
      UntagInsert(key, cmp, SortTagged(key, cmp, front), t[|t| - 1]);
      assert Untag(t) == Untag(front) + [t[|t| - 1].rec];
    }
  }

  /** The sorted array is a permutation of the input. */
  lemma StableSortPermutation(s: seq<Record>, key: Key, cmp: Comparator)
    requires AllHave(s, key)
    ensures multiset(StableSort(s, key, cmp)) == multiset(s)
  {
    UntagSortTagged(key, cmp, Tag(s));
    assert Untag(Tag(s)) == s;
  }

  /**
   * The sort result, read through its tags: every output element is the input
   * element at its tag, each input position is used once, the output is
   * ordered by the comparator, and elements the comparator calls equal keep
   * their original relative order.
   */
  lemma StableSortCorrect(s: seq<Record>, key: Key, cmp: Comparator)
    requires IsTotalPreorder(cmp) && AllHave(s, key)
    ensures var t := SortTagged(key, cmp, Tag(s));
      && |t| == |s|
      && Untag(t) == StableSort(s, key, cmp)
      && (forall k :: 0 <= k < |t| ==> 0 <= t[k].index < |s| && t[k].rec == s[t[k].index])
      && DistinctIndices(t)
      && (forall i, j :: 0 <= i < j < |t| ==>
            cmp(t[i].rec.fields[key], t[j].rec.fields[key]) <= 0)
      && (forall i, j :: 0 <= i < j < |t| && cmp(t[i].rec.fields[key], t[j].rec.fields[key]) == 0 ==>
            t[i].index < t[j].index)
  {
    var u := Tag(s);
    var t := SortTagged(key, cmp, u);
    SortTaggedTags(s, key, cmp);
    SortTaggedSorted(key, cmp, u);
    forall i, j | 0 <= i < j < |t|
      ensures cmp(t[i].rec.fields[key], t[j].rec.fields[key]) <= 0
      ensures cmp(t[i].rec.fields[key], t[j].rec.fields[key]) == 0 ==> t[i].index < t[j].index
    {
      assert TieBroken(key, cmp, t[i], t[j]) <= 0;
    }
  }

  /** Each sorted pair carries an input element and its own index, each index once. */
  lemma SortTaggedTags(s: seq<Record>, key: Key, cmp: Comparator)
    ensures var t := SortTagged(key, cmp, Tag(s));
      && |t| == |s|
      && (forall k :: 0 <= k < |t| ==> 0 <= t[k].index < |s| && t[k].rec == s[t[k].index])
      && DistinctIndices(t)
  {
    var u := Tag(s);
    var t := SortTagged(key, cmp, u);
    SortTaggedPermutes(key, cmp, u);
    assert |t| == |multiset(t)| == |multiset(u)| == |s|;
    forall k | 0 <= k < |t|
      ensures 0 <= t[k].index < |s| && t[k].rec == s[t[k].index]
    {
      assert t[k] in multiset(u);
    }
    DistinctFromMultiset(t, u);
  }

  /** Sorting a sequence that is already in order changes nothing. */
  lemma StableSortIdempotent(s: seq<Record>, key: Key, cmp: Comparator)
    requires AllHave(s, key)
    requires forall i, j :: 0 <= i < j < |s| ==> cmp(s[i].fields[key], s[j].fields[key]) <= 0
    ensures StableSort(s, key, cmp) == s
  {
    TaggedInOrder(s, key, cmp);
    SortTaggedOfSorted(key, cmp, Tag(s));
    UntagTag(s);
  }

  lemma UntagTag(s: seq<Record>)
    ensures Untag(Tag(s)) == s
  {
  }

  /** Tagging an ordered sequence gives neighbours in order under the wrapped comparator. */
  lemma TaggedInOrder(s: seq<Record>, key: Key, cmp: Comparator)
    requires AllHave(s, key)
    requires forall i, j :: 0 <= i < j < |s| ==> cmp(s[i].fields[key], s[j].fields[key]) <= 0
    ensures forall i :: 0 < i < |Tag(s)| ==> TieBroken(key, cmp, Tag(s)[i - 1], Tag(s)[i]) <= 0
  {
    forall i | 0 < i < |s|
      ensures TieBroken(key, cmp, Tag(s)[i - 1], Tag(s)[i]) <= 0
    {
      assert cmp(s[i - 1].fields[key], s[i].fields[key]) <= 0;
    }
  }

  lemma {:induction false} SortTaggedOfSorted(key: Key, cmp: Comparator, t: seq<Tagged>)
    requires forall i :: 0 < i < |t| ==> TieBroken(key, cmp, t[i - 1], t[i]) <= 0
    ensures SortTagged(key, cmp, t) == t
  {
    if t != [] {
      var front, last := t[..|t| - 1], t[|t| - 1];
      forall i | 0 < i < |front|
        ensures TieBroken(key, cmp, front[i - 1], front[i]) <= 0
      {
        assert front[i - 1] == t[i - 1] && front[i] == t[i];
      }
      SortTaggedOfSorted(key, cmp, front);
      assert front == [] || TieBroken(key, cmp, front[|front| - 1], last) <= 0;
      assert Insert(key, cmp, front, last) == front + [last];
      assert t == front + [last];
    }
  }

  /** The wrapped comparator answers zero only for equal keys under the same tag: it never ties two input positions. */
  lemma TieBrokenTies(key: Key, cmp: Comparator, x: Tagged, y: Tagged)
    ensures TieBroken(key, cmp, x, y) == 0 <==> cmp(Get(x.rec, key), Get(y.rec, key)) == 0 && x.index == y.index
  {
  }

  /** With a total preorder, the wrapped comparator ties two elements in both directions only on the same tag. */
  lemma TieBrokenAntisymmetric(key: Key, cmp: Comparator, x: Tagged, y: Tagged)
    requires IsTotalPreorder(cmp)
    requires TieBroken(key, cmp, x, y) <= 0 && TieBroken(key, cmp, y, x) <= 0
    ensures x.index == y.index
  {
    var vx, vy := Get(x.rec, key), Get(y.rec, key);
    assert cmp(vx, vy) < 0 <==> cmp(vy, vx) > 0;
    assert cmp(vy, vx) < 0 <==> cmp(vx, vy) > 0;
  }

  /** Two sorted arrangements of the same elements with distinct tags start with the same element. */
  lemma SortedSameHead(key: Key, cmp: Comparator, t: seq<Tagged>, u: seq<Tagged>)
    requires IsTotalPreorder(cmp)
    requires t != [] && multiset(t) == multiset(u) && DistinctIndices(t)
    requires SortedBy(key, cmp, t) && SortedBy(key, cmp, u)
    ensures u != [] && t[0] == u[0]
  {
    assert t[0] in multiset(u);
    var j :| 0 <= j < |u| && u[j] == t[0];
    assert u[0] in multiset(t);
    var i :| 0 <= i < |t| && t[i] == u[0];
    if i != 0 && j != 0 {
      assert TieBroken(key, cmp, t[0], t[i]) <= 0;
      assert TieBroken(key, cmp, u[0], u[j]) <= 0;
      TieBrokenAntisymmetric(key, cmp, t[0], t[i]);
      assert false;
    }
  }

  /** Dropping the first element keeps a sequence sorted and its tags distinct. */
  lemma SortedTail(key: Key, cmp: Comparator, t: seq<Tagged>)
    requires t != [] && SortedBy(key, cmp, t) && DistinctIndices(t)
    ensures SortedBy(key, cmp, t[1..]) && DistinctIndices(t[1..])
  {
    forall i, j | 0 <= i < j < |t[1..]|
      ensures TieBroken(key, cmp, t[1..][i], t[1..][j]) <= 0 && t[1..][i].index != t[1..][j].index
    {
      assert t[1..][i] == t[i + 1] && t[1..][j] == t[j + 1];
    }
  }

  /**
   * Sorting by the wrapped comparator has one answer: two sequences holding
   * the same elements with distinct tags, both in order, are equal.
   */
  lemma {:induction false} SortedUnique(key: Key, cmp: Comparator, t: seq<Tagged>, u: seq<Tagged>)
    requires IsTotalPreorder(cmp)
    requires multiset(t) == multiset(u) && DistinctIndices(t)
    requires SortedBy(key, cmp, t) && SortedBy(key, cmp, u)
    ensures t == u
    decreases |t|
  {
    if t == [] {
      assert |u| == |multiset(u)| == 0;
    } else {
      SortedSameHead(key, cmp, t, u);
      SameTailElements(t, u);
      SortedTail(key, cmp, t);
      DistinctFromMultiset(u, t);
      SortedTail(key, cmp, u);
      SortedUnique(key, cmp, t[1..], u[1..]);
    }
  }

  /** Equal heads of two permutations leave permutations behind. */
  lemma SameTailElements(t: seq<Tagged>, u: seq<Tagged>)
    requires t != [] && u != [] && t[0] == u[0] && multiset(t) == multiset(u)
    ensures multiset(t[1..]) == multiset(u[1..])
  {
    assert t == [t[0]] + t[1..] && u == [u[0]] + u[1..];
    assert multiset(t) == multiset{t[0]} + multiset(t[1..]);
    assert multiset(u) == multiset{t[0]} + multiset(u[1..]);
    assert multiset(t[1..]) == multiset(t) - multiset{t[0]} == multiset(u[1..]);
  }

  /**
   * Whatever algorithm the engine's `sort` uses, a rearrangement of the tagged
   * elements that is in order under the wrapped comparator is `SortTagged`:
   * the array `stableSorting` leaves does not depend on the algorithm.
   */
  lemma AnySortAgrees(s: seq<Record>, key: Key, cmp: Comparator, u: seq<Tagged>)
    requires IsTotalPreorder(cmp) && AllHave(s, key)
    requires multiset(u) == multiset(Tag(s)) && SortedBy(key, cmp, u)
    ensures u == SortTagged(key, cmp, Tag(s))
    ensures Untag(u) == StableSort(s, key, cmp)
  {
    var t := SortTagged(key, cmp, Tag(s));
    SortTaggedTags(s, key, cmp);
    SortTaggedPermutes(key, cmp, Tag(s));
    SortTaggedSorted(key, cmp, Tag(s));
    SortedUnique(key, cmp, t, u);
  }

  // ---------------------------------------------------------------------
  // compareProperties and compareMultiProperties
  // ---------------------------------------------------------------------

  /** `compareProperties(properties, cFx, ascend)(a, b)`. */
  function CompareProperties(key: Key, cmp: Comparator, ascend: bool, a: Record, b: Record): (r: int)
    requires key in a.fields && key in b.fields
    ensures r == 0 <==> cmp(a.fields[key], b.fields[key]) == 0
    ensures r < 0 <==> (if ascend then cmp(a.fields[key], b.fields[key]) < 0 else cmp(a.fields[key], b.fields[key]) > 0)
  {
    cmp(a.fields[key], b.fields[key]) * (if ascend then 1 else -1)
  }

  /** The descending comparator is exactly the negated ascending one. */
  lemma DescendingNegatesAscending(key: Key, cmp: Comparator, a: Record, b: Record)
    requires key in a.fields && key in b.fields
    ensures CompareProperties(key, cmp, false, a, b) == -CompareProperties(key, cmp, true, a, b)
    ensures CompareProperties(key, cmp, true, a, b) == cmp(a.fields[key], b.fields[key])
  {
  }

  /** Either direction of a total preorder is again a total preorder on records. */
  lemma ComparePropertiesIsPreorder(key: Key, cmp: Comparator, ascend: bool, a: Record, b: Record, c: Record)
    requires IsTotalPreorder(cmp)
    requires key in a.fields && key in b.fields && key in c.fields
    ensures CompareProperties(key, cmp, ascend, a, b) < 0 <==> CompareProperties(key, cmp, ascend, b, a) > 0
    ensures CompareProperties(key, cmp, ascend, a, b) <= 0 && CompareProperties(key, cmp, ascend, b, c) <= 0 ==>
      CompareProperties(key, cmp, ascend, a, c) <= 0
  {
    var va, vb, vc := a.fields[key], b.fields[key], c.fields[key];
    if !ascend {
      assert cmp(vc, vb) <= 0 && cmp(vb, va) <= 0 ==> cmp(vc, va) <= 0;
    }
  }

  /** The comparator `compareMultiProperties` returns: parallel keys and per-key comparators. */
  datatype MultiComparator = MultiComparator(keys: seq<Key>, comparators: seq<Comparator>)
  {
    predicate Valid() {
      |keys| == |comparators| > 0
    }

    predicate Applicable(a: Record, b: Record) {
      forall d :: 0 <= d < |keys| ==> keys[d] in a.fields && keys[d] in b.fields
    }

    /** The verdict of the key at depth `d` alone. */
    function KeyVerdict(d: nat, a: Record, b: Record): int
      requires Valid() && Applicable(a, b) && d < |keys|
    {
      comparators[d](a.fields[keys[d]], b.fields[keys[d]])
    }
  }

  /** An argument that `Array.isArray` accepts or rejects. */
  datatype ArrayArg<T> = JsArray(elements: seq<T>) | NotArray

  const MultiArgumentsMessage := "expected parameter as two arrays which have the same length"

  /** `compareMultiProperties(propertiesArray, cFxArray)`: the argument check. */
  function CompareMultiProperties(keys: ArrayArg<Key>, comparators: ArrayArg<Comparator>)
    : (r: Result<MultiComparator>)
    ensures r.Ok? <==>
      keys.JsArray? && comparators.JsArray? && |keys.elements| == |comparators.elements| > 0
    ensures r.Ok? ==> r.value.Valid() && r.value.keys == keys.elements && r.value.comparators == comparators.elements
    ensures r.TypeError? ==> r.message == MultiArgumentsMessage
  {
    if keys.NotArray? || comparators.NotArray? || |keys.elements| == 0
       || |keys.elements| != |comparators.elements|
    then TypeError(MultiArgumentsMessage)
    else Ok(MultiComparator(keys.elements, comparators.elements))
  }

  /**
   * Calling the returned comparator: advance `deepth` while the key at that
   * depth ties; the answer is zero iff every key ties, and otherwise the
   * verdict of the first key, in array order, that does not.
   */
  method MultiCompare(mc: MultiComparator, a: Record, b: Record) returns (r: int)
    requires mc.Valid() && mc.Applicable(a, b)
    ensures r == 0 <==> forall d :: 0 <= d < |mc.keys| ==> mc.KeyVerdict(d, a, b) == 0
    ensures r != 0 ==>
      exists d :: 0 <= d < |mc.keys| && r == mc.KeyVerdict(d, a, b) &&
        (forall e :: 0 <= e < d ==> mc.KeyVerdict(e, a, b) == 0)
  {
    var n := |mc.keys|;
    var depth := 0;
    while depth != n && mc.comparators[depth](a.fields[mc.keys[depth]], b.fields[mc.keys[depth]]) == 0
      invariant 0 <= depth <= n
      invariant forall e :: 0 <= e < depth ==> mc.KeyVerdict(e, a, b) == 0
    {
      depth := depth + 1;
    }
    if depth == n {
      r := 0;
    } else {
      r := mc.comparators[depth](a.fields[mc.keys[depth]], b.fields[mc.keys[depth]]);
      assert r == mc.KeyVerdict(depth, a, b);
    }
  }
}
