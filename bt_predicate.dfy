/** `predicates/BtPredicate.in(T...)`: a filter predicate that holds of an
    object equal to one of the given arguments. The elements' `equals` is
    value equality; a null element makes its `equals` call throw. */
module BtPredicates {
  import opened JavaLang

  /** No argument is null. */
  predicate NoNulls<T>(arguments: seq<Nullable<T>>) {
    forall i :: 0 <= i < |arguments| ==> arguments[i].Ref?
  }

  /** `in(arguments).test(object)`: the arguments are tried in order with
      `t.equals(object)` and the search returns at the first match. */
  function In<T(==)>(arguments: seq<Nullable<T>>, item: Nullable<T>): (r: Outcome<bool>)
    ensures NoNulls(arguments) ==> r == Returns(item.Ref? && item in arguments)
    ensures r == Returns(true) ==> item.Ref? && item in arguments
  {
    if arguments == [] then Returns(false)
    else if arguments[0].Null? then ThrowsNullPointer
    else if arguments[0] == item then Returns(true)
    else In(arguments[1..], item)
  }

  /** With no arguments the predicate holds of nothing. */
  lemma InNoArguments<T>(item: Nullable<T>)
    ensures In([], item) == Returns(false)
  {
  }

  /** The search stops at the first match: whatever follows it, null
      elements included, is never looked at. */
  lemma {:induction false} FirstMatchDecides<T>(prefix: seq<Nullable<T>>, rest: seq<Nullable<T>>, item: Nullable<T>)
    requires In(prefix, item) == Returns(true)
    ensures In(prefix + rest, item) == Returns(true)
  {
    assert prefix != [];
    if prefix[0] != item {
      assert (prefix + rest)[1..] == prefix[1..] + rest;
      FirstMatchDecides(prefix[1..], rest, item);
    }
  }

  /** A null argument that the search reaches before any match makes the
      test throw. */
  lemma {:induction false} NullBeforeMatchThrows<T>(prefix: seq<Nullable<T>>, rest: seq<Nullable<T>>, item: Nullable<T>)
    requires NoNulls(prefix) && item !in prefix
    ensures In(prefix + [Null] + rest, item) == ThrowsNullPointer
  {
    if prefix == [] {
      assert (prefix + [Null] + rest)[0] == Null;
    } else {
      assert (prefix + [Null] + rest)[1..] == prefix[1..] + [Null] + rest;
      NullBeforeMatchThrows(prefix[1..], rest, item);
    }
  }

  /** Without nulls, neither the order of the arguments nor repeated
      arguments change the result. */
  lemma InDependsOnlyOnSet<T>(a: seq<Nullable<T>>, b: seq<Nullable<T>>, item: Nullable<T>)
    requires NoNulls(a) && NoNulls(b)
    requires forall x :: x in a <==> x in b
    ensures In(a, item) == In(b, item)
  {
  }
}
