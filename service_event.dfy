/** The profile-service event (`events/ServiceEvent`): an immutable record
    of whether a profile service was just connected or disconnected, the
    profile type and the profile proxy, with hand-written `equals` and
    `hashCode`. The profile type `P` is Android's `BluetoothProfile`; its
    `equals` and `hashCode`, and the identity `hashCode` of the `State`
    constants, are foreign and are passed in. The state may be null: the
    constructor does not check it, `equals` compares it by reference, and
    `hashCode` then throws. */
module ServiceEvents {
  import opened JavaLang

  /** `ServiceEvent.State`. */
  datatype State = Connected | Disconnected

  datatype ServiceEvent<P> =
    ServiceEvent(state: Nullable<State>, profileType: int32, bluetoothProfile: Nullable<P>)
  {
    function GetState(): Nullable<State> { state }
    function GetProfileType(): int32 { profileType }
    function GetBluetoothProfile(): Nullable<P> { bluetoothProfile }
  }

  /** `State` has the two constants and no other. */
  lemma StateHasTwoValues(s: State)
    ensures s == Connected || s == Disconnected
    ensures Connected != Disconnected
  {
  }

  /** The getters hand back what the constructor was given. */
  lemma GettersReturnArguments<P>(state: Nullable<State>, profileType: int32, profile: Nullable<P>)
    ensures var e := ServiceEvent(state, profileType, profile);
            e.GetState() == state && e.GetProfileType() == profileType &&
            e.GetBluetoothProfile() == profile
  {
  }

  /** `equals(Object)`: `other` is `Null` for a null argument or one of
      another class; the identity shortcut is taken for this very record. */
  function Equals<P(==)>(e: ServiceEvent<P>, other: Nullable<ServiceEvent<P>>,
                         profileEq: (P, P) -> bool): bool
  {
    if other == Ref(e) then true
    else if other.Null? then false
    else
      var that := other.get;
      if e.profileType != that.profileType then false
      else if e.state != that.state then false
      else NullSafeEquals(e.bluetoothProfile, that.bluetoothProfile, profileEq)
  }

  /** `hashCode()`: `31 * (31 * stateHash + profileType) + profileHash`, in
      Java `int` arithmetic; `state.hashCode()` on a null state throws. */
  function HashCode<P>(e: ServiceEvent<P>, stateHash: State -> int32, profileHash: P -> int32): Outcome<int32> {
    if e.state.Null? then ThrowsNullPointer
    else
      var result := stateHash(e.state.get);
      var result := Hash31(result, e.profileType);
      Returns(Hash31(result, NullSafeHash(e.bluetoothProfile, profileHash)))
  }

  /** `equals` is reflexive whatever the profile's own `equals` does. */
  lemma EqualsReflexive<P>(e: ServiceEvent<P>, profileEq: (P, P) -> bool)
    ensures Equals(e, Ref(e), profileEq)
  {
  }

  /** With a reflexive profile `equals`, two events are equal exactly when
      profile type and state match and the profiles are both null or
      equal. */
  lemma EqualsIff<P(!new)>(a: ServiceEvent<P>, b: ServiceEvent<P>, profileEq: (P, P) -> bool)
    requires forall p :: profileEq(p, p)
    ensures Equals(a, Ref(b), profileEq) <==>
            a.profileType == b.profileType && a.state == b.state &&
            NullSafeEquals(a.bluetoothProfile, b.bluetoothProfile, profileEq)
  {
    if a == b && a.bluetoothProfile.Ref? {
      assert profileEq(a.bluetoothProfile.get, b.bluetoothProfile.get);
    }
  }

  /** The hash is `961 * stateHash + 31 * profileType + profileHash` modulo
      2^32; with a null state, `hashCode` throws. */
  lemma HashCodeClosedForm<P>(e: ServiceEvent<P>, stateHash: State -> int32, profileHash: P -> int32)
    ensures e.state.Null? ==> HashCode(e, stateHash, profileHash) == ThrowsNullPointer
    ensures e.state.Ref? ==>
              HashCode(e, stateHash, profileHash) ==
              Returns(Wrap(961 * stateHash(e.state.get) as int + 31 * e.profileType as int +
                           NullSafeHash(e.bluetoothProfile, profileHash) as int))
  {
    if e.state.Ref? {
      Hash31Twice(stateHash(e.state.get), e.profileType, NullSafeHash(e.bluetoothProfile, profileHash));
    }
  }

  /** Equal events have equal hash codes (or both throw, for a null state),
      provided the profile's `hashCode` keeps the contract with its
      `equals`. */
  lemma EqualEventsEqualHash<P(!new)>(a: ServiceEvent<P>, b: ServiceEvent<P>, profileEq: (P, P) -> bool,
                                      stateHash: State -> int32, profileHash: P -> int32)
    requires HashConsistent(profileEq, profileHash)
    requires Equals(a, Ref(b), profileEq)
    ensures HashCode(a, stateHash, profileHash) == HashCode(b, stateHash, profileHash)
  {
    if a != b {
      NullSafeHashConsistent(a.bluetoothProfile, b.bluetoothProfile, profileEq, profileHash);
    }
  }
}
