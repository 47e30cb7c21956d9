/** `DiscoveryState`: the two discovery broadcasts of the adapter, each
    wrapping the Android action string it stands for, and two helpers that
    build filter functions over them. The helpers overwrite their result on
    every pass of their loop, so they report on the LAST listed state only;
    `IsEqualToAny` and `IsNotEqualToAll` are what their documentation
    describes. The listed states and the state tested may be null: `==`
    and `!=` compare references, so a null is equal to a null only. */
module DiscoveryStates {
  import opened JavaLang

  datatype DiscoveryState = DiscoveryStarted | DiscoveryFinished

  /** `BluetoothAdapter.ACTION_DISCOVERY_STARTED`. */
  const ActionDiscoveryStarted: string := "android.bluetooth.adapter.action.DISCOVERY_STARTED"
  /** `BluetoothAdapter.ACTION_DISCOVERY_FINISHED`. */
  const ActionDiscoveryFinished: string := "android.bluetooth.adapter.action.DISCOVERY_FINISHED"

  /** `toString()`: the action string the constant was built with. */
  function ToString(d: DiscoveryState): (r: string)
    ensures r == ActionDiscoveryStarted <==> d == DiscoveryStarted
    ensures r == ActionDiscoveryFinished <==> d == DiscoveryFinished
  {
    match d
    case DiscoveryStarted => ActionDiscoveryStarted
    case DiscoveryFinished => ActionDiscoveryFinished
  }

  /** There are the two constants and no other, and `toString` tells them
      apart. */
  lemma TwoConstants(d: DiscoveryState, e: DiscoveryState)
    ensures d == DiscoveryStarted || d == DiscoveryFinished
    ensures ToString(d) == ToString(e) <==> d == e
  {
  }

  /** The states list is non-empty and its last element is `d`. */
  predicate LastIs(states: seq<Nullable<DiscoveryState>>, d: Nullable<DiscoveryState>) {
    |states| > 0 && states[|states| - 1] == d
  }

  /** The states list is non-empty and its last element is not `d`. */
  predicate LastIsNot(states: seq<Nullable<DiscoveryState>>, d: Nullable<DiscoveryState>) {
    |states| > 0 && states[|states| - 1] != d
  }

  /** `isEqualTo(states).call(discoveryState)`: each pass of the loop
      overwrites the flag, so only the last state decides. */
  method IsEqualTo(states: seq<Nullable<DiscoveryState>>, discoveryState: Nullable<DiscoveryState>) returns (statesAreEqual: bool)
    ensures statesAreEqual <==> LastIs(states, discoveryState)
  {
    statesAreEqual := false;
    for i := 0 to |states|
      invariant i == 0 ==> !statesAreEqual
      invariant i > 0 ==> (statesAreEqual <==> states[i - 1] == discoveryState)
    {
      statesAreEqual := states[i] == discoveryState;
    }
  }

  /** `isNotEqualTo(states).call(discoveryState)`, with the same loop. */
  method IsNotEqualTo(states: seq<Nullable<DiscoveryState>>, discoveryState: Nullable<DiscoveryState>) returns (statesAreNotEqual: bool)
    ensures statesAreNotEqual <==> LastIsNot(states, discoveryState)
  {
    statesAreNotEqual := false;
    for i := 0 to |states|
      invariant i == 0 ==> !statesAreNotEqual
      invariant i > 0 ==> (statesAreNotEqual <==> states[i - 1] != discoveryState)
    {
      statesAreNotEqual := states[i] != discoveryState;
    }
  }

  /** With no states both filters reject everything; with some states,
      `isNotEqualTo` is the negation of `isEqualTo`. */
  lemma NotEqualIsNegation(states: seq<Nullable<DiscoveryState>>, d: Nullable<DiscoveryState>)
    ensures states == [] ==> !LastIs(states, d) && !LastIsNot(states, d)
    ensures states != [] ==> (LastIsNot(states, d) <==> !LastIs(states, d))
  {
  }

  /** With a single state, `isEqualTo` compares with it. */
  lemma SingleState(x: Nullable<DiscoveryState>, d: Nullable<DiscoveryState>)
    ensures LastIs([x], d) <==> x == d
    ensures LastIsNot([x], d) <==> x != d
  {
  }

  /** The filter as written rejects a state that IS listed when it is not
      the last one: `isEqualTo(STARTED, FINISHED)` rejects `STARTED`, and
      `isNotEqualTo(STARTED, FINISHED)` accepts it. */
  lemma LastIsIsNotMembership()
    ensures var states := [Ref(DiscoveryStarted), Ref(DiscoveryFinished)];
            Ref(DiscoveryStarted) in states && !LastIs(states, Ref(DiscoveryStarted)) &&
            LastIsNot(states, Ref(DiscoveryStarted))
  {
  }

  /** `isEqualTo` as documented: does the state equal one of the listed
      states? The search stops at the first match. */
  method IsEqualToAny(states: seq<Nullable<DiscoveryState>>, discoveryState: Nullable<DiscoveryState>) returns (statesAreEqual: bool)
    ensures statesAreEqual <==> discoveryState in states
  {
    for i := 0 to |states|
      invariant discoveryState !in states[..i]
    {
      if states[i] == discoveryState {
        return true;
      }
    }
    assert states[..|states|] == states;
    return false;
  }

  /** `isNotEqualTo` as documented: does the state differ from every listed
      state? */
  method IsNotEqualToAll(states: seq<Nullable<DiscoveryState>>, discoveryState: Nullable<DiscoveryState>) returns (statesAreNotEqual: bool)
    ensures statesAreNotEqual <==> discoveryState !in states
  {
    var found := IsEqualToAny(states, discoveryState);
    statesAreNotEqual := !found;
  }

  /** The documented filters agree with the written ones whenever a single
      state is given. */
  lemma AgreeOnSingleState(x: Nullable<DiscoveryState>, d: Nullable<DiscoveryState>)
    ensures (d in [x]) <==> LastIs([x], d)
    ensures (d !in [x]) <==> LastIsNot([x], d)
  {
  }
}
