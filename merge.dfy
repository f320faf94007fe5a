/**
 * `assignment(leftObject, rightObject)` of common-tools.js, shallow-copy path:
 * every property of the right object is copied into the left object, except
 * that a blank right value (`''`, `null`, `undefined`) never overwrites a
 * property the left object already owns.
 */
module Merge {

  /** The property values the merge distinguishes; objects are opaque references. */
  datatype Value =
    | Str(s: string)
    | Num(n: int)
    | Bool(b: bool)
    | Null
    | Undefined
    | ObjectRef(id: nat)

  /** `tinyVlBlk`: the empty string, `null` and `undefined`. */
  predicate IsBlank(v: Value) {
    v == Str("") || v.Null? || v.Undefined?
  }

  /** An object whose own properties the merge writes into. */
  class PlainObject {
    var properties: map<string, Value>

    constructor(properties: map<string, Value>)
      ensures this.properties == properties
    {
      this.properties := properties;
    }
  }

  /** The left object after the merge, as a function of its old properties and the right object. */
  function Merged(left: map<string, Value>, right: map<string, Value>): (m: map<string, Value>)
    ensures m.Keys == left.Keys + right.Keys
    ensures forall k :: k in right && k !in left ==> m[k] == right[k]
    ensures forall k :: k in right && k in left && !IsBlank(right[k]) ==> m[k] == right[k]
    ensures forall k :: k in right && k in left && IsBlank(right[k]) ==> m[k] == left[k]
    ensures forall k :: k in left && k !in right ==> m[k] == left[k]
  {
    map k | k in left.Keys + right.Keys ::
      if k in right && (k !in left || !IsBlank(right[k])) then right[k] else left[k]
  }

  /** The right object restricted to the keys in `keys`. */
  function Restrict(right: map<string, Value>, keys: set<string>): (r: map<string, Value>)
    ensures r.Keys == right.Keys * keys
    ensures forall k :: k in r ==> r[k] == right[k]
  {
    map k | k in right && k in keys :: right[k]
  }

  /**
   * The for-in loop over the right object: each key is visited once, in an
   * order the model leaves open, and the left object ends as `Merged` whatever
   * that order is; the same object is returned.
   */
  method Assignment(left: PlainObject, right: map<string, Value>) returns (result: PlainObject)
    modifies left
    ensures result == left
    ensures left.properties == Merged(old(left.properties), right)
  {
    ghost var original := left.properties;
    var todo := right.Keys;
    while todo != {}
      invariant todo <= right.Keys
      invariant left.properties == Merged(original, Restrict(right, right.Keys - todo))
      decreases todo
    {
      var rkey :| rkey in todo;
      MergedStep(original, right, right.Keys - todo, rkey);
      if rkey in left.properties {
        if !IsBlank(right[rkey]) {
          left.properties := left.properties[rkey := right[rkey]];
        }
      } else {
        left.properties := left.properties[rkey := right[rkey]];
      }
      assert right.Keys - (todo - {rkey}) == (right.Keys - todo) + {rkey};
      todo := todo - {rkey};
    }
    assert Restrict(right, right.Keys - todo) == right;
    return left;
  }

  /** Taking one more key of the right object into the merge: it is written unless blank over an owned property. */
  lemma MergedStep(left: map<string, Value>, right: map<string, Value>, done: set<string>, k: string)
    requires k in right && k !in done
    ensures var m := Merged(left, Restrict(right, done));
      Merged(left, Restrict(right, done + {k})) ==
        if k in m && IsBlank(right[k]) then m else m[k := right[k]]
  {
    var before := Restrict(right, done);
    assert Restrict(right, done + {k}) == before[k := right[k]];
  }

  /** Merging the same right object twice changes nothing the first merge did not. */
  lemma MergedIdempotent(left: map<string, Value>, right: map<string, Value>)
    ensures Merged(Merged(left, right), right) == Merged(left, right)
  {
  }

  /** An empty right object leaves the left object as it was. */
  lemma MergedEmptyRight(left: map<string, Value>)
    ensures Merged(left, map[]) == left
  {
  }

  /** Into an empty left object, the right object is copied whole, blanks included. */
  lemma MergedEmptyLeft(right: map<string, Value>)
    ensures Merged(map[], right) == right
  {
  }

  /** A property the left object owns keeps a non-blank value non-blank. */
  lemma MergedNeverBlanks(left: map<string, Value>, right: map<string, Value>, k: string)
    requires k in left && !IsBlank(left[k])
    ensures !IsBlank(Merged(left, right)[k])
  {
  }
}
