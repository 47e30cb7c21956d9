/** `Action.isEqualTo(T...)`: a filter function that holds of an action
    equal to one of the given actions, written as the same early-return
    search as `BtPredicate.in`. */
module Actions {
  import opened JavaLang
  import BtPredicates

  /** `isEqualTo(actions).call(action)`. */
  function IsEqualTo<T(==)>(actions: seq<Nullable<T>>, action: Nullable<T>): (r: Outcome<bool>)
    ensures BtPredicates.NoNulls(actions) ==> r == Returns(action.Ref? && action in actions)
    ensures r == Returns(true) ==> action.Ref? && action in actions
  {
    if actions == [] then Returns(false)
    else if actions[0].Null? then ThrowsNullPointer
    else if actions[0] == action then Returns(true)
    else IsEqualTo(actions[1..], action)
  }

  /** With no actions the function returns false. */
  lemma IsEqualToNoActions<T>(action: Nullable<T>)
    ensures IsEqualTo([], action) == Returns(false)
  {
  }

  /** The function returns true as soon as an action matches, whatever
      follows. */
  lemma {:induction false} FirstMatchDecides<T>(prefix: seq<Nullable<T>>, rest: seq<Nullable<T>>, action: Nullable<T>)
    requires IsEqualTo(prefix, action) == Returns(true)
    ensures IsEqualTo(prefix + rest, action) == Returns(true)
  {
    assert prefix != [];
    if prefix[0] != action {
      assert (prefix + rest)[1..] == prefix[1..] + rest;
      FirstMatchDecides(prefix[1..], rest, action);
    }
  }

  /** `Action.isEqualTo` and `BtPredicate.in` agree on every argument list,
      including the ones holding nulls: the two utilities are the same loop,
      written twice in the library. */
  lemma {:induction false} AgreesWithIn<T>(actions: seq<Nullable<T>>, action: Nullable<T>)
    ensures IsEqualTo(actions, action) == BtPredicates.In(actions, action)
  {
    if actions != [] && actions[0].Ref? && actions[0] != action {
      AgreesWithIn(actions[1..], action);
    }
  }
}
