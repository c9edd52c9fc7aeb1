/**
 The part of Python's run-time behaviour that the deck code relies on:
 the values a list can hold, equality between them, the exceptions that
 are raised, and the in-place `list.remove` operation.
 */
module PyList {

  /** A Python value as far as the deck code is concerned: a `str`, or a
      `list` of values.  Datatype equality is Python's `==` on these values:
      a string never equals a list. */
  datatype Value = Str(s: string) | List(elems: seq<Value>)

  /** The exceptions that the modelled code can raise. */
  datatype Error = IndexError | ValueError

  /** A computation that returns a value or raises. */
  datatype Result<T> = Ok(value: T) | Err(error: Error)

  /** The outcome of a statement that returns `None` or raises. */
  datatype Status = Done | Raised(error: Error)

  datatype Option<T> = None | Some(value: T)

  /** No element occurs at two positions. */
  predicate Distinct<T(==)>(s: seq<T>)
  {
    forall a, b :: 0 <= a < b < |s| ==> s[a] != s[b]
  }

  /** Every element of the list is a string (a deck of cards). */
  predicate AllStrings(s: seq<Value>)
  {
    forall v :: v in s ==> v.Str?
  }

  /** `s` with the element at position `i` deleted (`del s[i]`). */
  function DeleteAt<T>(s: seq<T>, i: nat): (r: seq<T>)
    requires i < |s|
    ensures |r| == |s| - 1
  {
    s[..i] + s[i + 1..]
  }

  /** Python's `list.remove(x)`: delete the first element equal to `x`,
      or raise `ValueError` when there is none. */
  function RemoveFirst<T(==)>(s: seq<T>, x: T): (r: Result<seq<T>>)
    ensures r.Err? <==> x !in s
    ensures r.Err? ==> r.error == ValueError
    ensures r.Ok? ==> |r.value| == |s| - 1
  {
    if s == [] then Err(ValueError)
    else if s[0] == x then Ok(s[1..])
    else
      match RemoveFirst(s[1..], x)
      case Err(e) => Err(e)
      case Ok(t) => Ok([s[0]] + t)
  }

  /** Removing takes away exactly one `x` and keeps every other element. */
  lemma {:induction false} RemoveFirstMultiset<T>(s: seq<T>, x: T)
    requires x in s
    ensures RemoveFirst(s, x).Ok?
    ensures multiset(RemoveFirst(s, x).value) == multiset(s) - multiset{x}
  {
    assert s == [s[0]] + s[1..];
    if s[0] != x {
      RemoveFirstMultiset(s[1..], x);
    }
  }

  /** Only the first occurrence is removed; everything else keeps its order. */
  lemma {:induction false} RemoveFirstAt<T>(s: seq<T>, x: T, i: nat)
    requires i < |s| && s[i] == x && x !in s[..i]
    ensures RemoveFirst(s, x) == Ok(DeleteAt(s, i))
  {
    if i == 0 {
      assert DeleteAt(s, 0) == s[1..];
    } else {
      var tail := s[1..];
      assert s[0] != x by { assert s[0] == s[..i][0]; }
      assert x !in tail[..i - 1] by { assert tail[..i - 1] == s[1..i]; }
      RemoveFirstAt(tail, x, i - 1);
      assert RemoveFirst(s, x) == Ok([s[0]] + DeleteAt(tail, i - 1));
      assert [s[0]] + DeleteAt(tail, i - 1) == DeleteAt(s, i);
    }
  }

  /** A list of values can never be removed from a list of strings. */
  lemma NoListInStrings(s: seq<Value>, elems: seq<Value>)
    requires AllStrings(s)
    ensures RemoveFirst(s, List(elems)) == Err(ValueError)
  {
  }

  /** A Python list object: a sequence of values updated in place. */
  class List {
    var items: seq<Value>

    constructor (init: seq<Value>)
      ensures items == init
    {
      items := init;
    }

    /** `list.index(x)`: the position of the first element equal to `x`. */
    method Index(x: Value) returns (r: Option<nat>)
      ensures r.None? <==> x !in items
      ensures r.Some? ==> r.value < |items| && items[r.value] == x && x !in items[..r.value]
    {
      var i := 0;
      while i < |items|
        invariant 0 <= i <= |items|
        invariant x !in items[..i]
      {
        if items[i] == x {
          return Some(i);
        }
        assert items[..i + 1] == items[..i] + [items[i]];
        i := i + 1;
      }
      assert items[..i] == items;
      return None;
    }

    /** `list.remove(x)`: deletes the first element equal to `x` in place,
        or raises `ValueError` and leaves the list as it was. */
    method Remove(x: Value) returns (status: Status)
      modifies this
      ensures match RemoveFirst(old(items), x)
              case Ok(rest) => status == Done && items == rest
              case Err(e) => status == Raised(e) && items == old(items)
    {
      var i := Index(x);
      match i
      case None =>
        status := Raised(ValueError);
      case Some(k) =>
        RemoveFirstAt(items, x, k);
        items := items[..k] + items[k + 1..];
        status := Done;
    }
  }
}
