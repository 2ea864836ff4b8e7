/**
 * The part of org.json (as shipped with Android) that the cell-info encoder uses.
 * A JSON object is an insertion-ordered list of (name, value) members, as the library's
 * LinkedHashMap keeps it; `put` on an existing name replaces the value in place, `put`
 * of a null value removes the name. A JSON array is a sequence of objects.
 * Text serialisation is not modelled.
 */
module Json {
  import opened Wrappers

  datatype Value = Str(s: string) | Num(n: int)

  type Object = seq<(string, Value)>

  /** `has(name)`. */
  predicate Has(o: Object, k: string)
  {
    exists j :: 0 <= j < |o| && o[j].0 == k
  }

  /** No name occurs twice; every object the library builds has this shape. */
  predicate DistinctKeys(o: Object)
  {
    forall i, j :: 0 <= i < j < |o| ==> o[i].0 != o[j].0
  }

  lemma HasTail(o: Object, k: string)
    requires o != []
    ensures Has(o, k) <==> o[0].0 == k || Has(o[1..], k)
  {
    if Has(o, k) && o[0].0 != k {
      var j :| 0 <= j < |o| && o[j].0 == k;
      assert o[1..][j - 1].0 == k;
    }
    if Has(o[1..], k) {
      var j :| 0 <= j < |o| - 1 && o[1..][j].0 == k;
      assert o[j + 1].0 == k;
    }
  }

  /** `opt(name)`: the value bound to the first member with that name, if any. */
  function Get(o: Object, k: string): Option<Value>
  {
    if o == [] then None
    else if o[0].0 == k then Some(o[0].1)
    else Get(o[1..], k)
  }

  /** A lookup finds a value exactly when the name is present, and the value is bound to that name. */
  lemma {:induction false} GetHas(o: Object, k: string)
    ensures Get(o, k).Some? <==> Has(o, k)
    ensures Get(o, k).Some? ==> (k, Get(o, k).value) in o
  {
    if o != [] {
      HasTail(o, k);
      GetHas(o[1..], k);
      if o[0].0 != k && Get(o, k).Some? {
        assert (k, Get(o, k).value) in o[1..];
      }
    }
  }

  /** In an object without repeated names, each member is what its name looks up. */
  lemma {:induction false} GetAt(o: Object, j: nat)
    requires DistinctKeys(o) && j < |o|
    ensures Get(o, o[j].0) == Some(o[j].1)
  {
    if j > 0 {
      assert o[1..][j - 1] == o[j];
      GetAt(o[1..], j - 1);
    }
  }

  /** `put(name, value)` with a non-null value: a new name is appended, a known one keeps its place. */
  function Put(o: Object, k: string, v: Value): Object
  {
    if o == [] then [(k, v)]
    else if o[0].0 == k then [(k, v)] + o[1..]
    else [o[0]] + Put(o[1..], k, v)
  }

  /** A new name goes at the end; a known name keeps its place, so the length is unchanged. */
  lemma {:induction false} PutPlacement(o: Object, k: string, v: Value)
    ensures !Has(o, k) ==> Put(o, k, v) == o + [(k, v)]
    ensures Has(o, k) ==> |Put(o, k, v)| == |o|
  {
    if o != [] {
      HasTail(o, k);
      if o[0].0 != k {
        PutPlacement(o[1..], k, v);
        if !Has(o, k) {
          assert o == [o[0]] + o[1..];
        }
      }
    }
  }

  /** In an object without repeated names, `put` on a known name changes that member's value and nothing else. */
  lemma {:induction false} PutInPlace(o: Object, k: string, v: Value)
    requires DistinctKeys(o) && Has(o, k)
    ensures |Put(o, k, v)| == |o|
    ensures forall i :: 0 <= i < |o| ==> Put(o, k, v)[i] == (if o[i].0 == k then (k, v) else o[i])
  {
    var r := Put(o, k, v);
    HasTail(o, k);
    if o[0].0 == k {
      forall i | 0 < i < |o|
        ensures r[i] == o[i] && o[i].0 != k
      {
        assert r[i] == o[1..][i - 1];
      }
    } else {
      var t := o[1..];
      assert DistinctKeys(t) by {
        forall i, j | 0 <= i < j < |t| ensures t[i].0 != t[j].0 {
          assert t[i] == o[i + 1] && t[j] == o[j + 1];
        }
      }
      PutInPlace(t, k, v);
      forall i | 0 < i < |o|
        ensures r[i] == (if o[i].0 == k then (k, v) else o[i])
      {
        assert r[i] == Put(t, k, v)[i - 1];
        assert o[i] == t[i - 1];
      }
    }
  }

  /** `remove(name)`. */
  function Remove(o: Object, k: string): Object
  {
    if o == [] then []
    else if o[0].0 == k then Remove(o[1..], k)
    else [o[0]] + Remove(o[1..], k)
  }

  /** Removing an absent name changes nothing; removing never lengthens the object. */
  lemma {:induction false} RemovePlacement(o: Object, k: string)
    ensures !Has(o, k) ==> Remove(o, k) == o
    ensures |Remove(o, k)| <= |o|
  {
    if o != [] {
      HasTail(o, k);
      RemovePlacement(o[1..], k);
      if !Has(o, k) {
        assert o == [o[0]] + o[1..];
      }
    }
  }

  /** `put(name, value)` where the value may be null: a null value removes the name. */
  function PutNullable(o: Object, k: string, v: Option<Value>): Object
  {
    match v
    case None => Remove(o, k)
    case Some(x) => Put(o, k, x)
  }

  /** On an absent name, a nullable `put` appends the member for a value and leaves the object alone for null. */
  lemma PutNullableAbsent(o: Object, k: string, v: Option<Value>)
    requires !Has(o, k)
    ensures PutNullable(o, k, v) == o + (if v.Some? then [(k, v.value)] else [])
  {
    match v
    case None => RemovePlacement(o, k); assert o + [] == o;
    case Some(x) => PutPlacement(o, k, x);
  }

  /** After `put`, the name holds the new value and every other name what it held before. */
  lemma {:induction false} PutGet(o: Object, k: string, v: Value, k': string)
    ensures Get(Put(o, k, v), k') == if k' == k then Some(v) else Get(o, k')
  {
    if o != [] && o[0].0 != k {
      PutGet(o[1..], k, v, k');
      assert ([o[0]] + Put(o[1..], k, v))[1..] == Put(o[1..], k, v);
    } else if o != [] {
      assert ([(k, v)] + o[1..])[1..] == o[1..];
    }
  }

  /** After `remove`, the name is gone and every other name holds what it held before. */
  lemma {:induction false} RemoveGet(o: Object, k: string, k': string)
    ensures Get(Remove(o, k), k') == if k' == k then None else Get(o, k')
  {
    if o != [] {
      RemoveGet(o[1..], k, k');
      if o[0].0 != k {
        assert ([o[0]] + Remove(o[1..], k))[1..] == Remove(o[1..], k);
      }
    }
  }

  /** A nullable `put` reads back like `put` for a value and like `remove` for null. */
  lemma PutNullableGet(o: Object, k: string, v: Option<Value>, k': string)
    ensures Get(PutNullable(o, k, v), k') == if k' == k then v else Get(o, k')
  {
    match v
    case None => RemoveGet(o, k, k');
    case Some(x) => PutGet(o, k, x, k');
  }

  /** `put` never introduces a repeated name, and adds exactly its own name. */
  lemma {:induction false} PutKeepsDistinct(o: Object, k: string, v: Value)
    requires DistinctKeys(o)
    ensures DistinctKeys(Put(o, k, v))
    ensures forall k' :: Has(Put(o, k, v), k') <==> Has(o, k') || k' == k
  {
    var r := Put(o, k, v);
    if o != [] && o[0].0 != k {
      var t := Put(o[1..], k, v);
      PutKeepsDistinct(o[1..], k, v);
      forall k' ensures Has(r, k') <==> Has(o, k') || k' == k {
        HasTail(r, k');
        HasTail(o, k');
        assert r[1..] == t;
      }
      HasTail(o, o[0].0);
      forall i, j | 0 <= i < j < |r| ensures r[i].0 != r[j].0 {
        if i == 0 {
          assert r[j] == t[j - 1];
          assert Has(t, r[j].0);
        } else {
          assert r[i] == t[i - 1] && r[j] == t[j - 1];
        }
      }
    } else if o != [] {
      assert r[1..] == o[1..];
      forall k' ensures Has(r, k') <==> Has(o, k') || k' == k {
        HasTail(r, k');
        HasTail(o, k');
      }
      forall i, j | 0 <= i < j < |r| ensures r[i].0 != r[j].0 {
        if i == 0 {
          assert o[i].0 == r[i].0 && o[j] == r[j];
        } else {
          assert r[i] == o[i] && r[j] == o[j];
        }
      }
    } else {
      forall k' ensures Has(r, k') <==> Has(o, k') || k' == k {
        HasTail(r, k');
      }
    }
  }

  /** `remove` keeps the names distinct and takes away exactly its own name. */
  lemma {:induction false} RemoveKeepsDistinct(o: Object, k: string)
    requires DistinctKeys(o)
    ensures DistinctKeys(Remove(o, k))
    ensures forall k' :: Has(Remove(o, k), k') <==> Has(o, k') && k' != k
  {
    var r := Remove(o, k);
    if o != [] {
      var t := Remove(o[1..], k);
      RemoveKeepsDistinct(o[1..], k);
      HasTail(o, o[0].0);
      forall k' ensures Has(r, k') <==> Has(o, k') && k' != k {
        HasTail(o, k');
        if o[0].0 != k {
          HasTail(r, k');
          assert r[1..] == t;
        }
      }
      if o[0].0 != k {
        forall i, j | 0 <= i < j < |r| ensures r[i].0 != r[j].0 {
          if i == 0 {
            assert r[j] == t[j - 1];
            assert Has(t, r[j].0);
          } else {
            assert r[i] == t[i - 1] && r[j] == t[j - 1];
          }
        }
      }
    }
  }
}
