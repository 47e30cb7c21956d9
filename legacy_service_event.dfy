/** The older copy of the profile-service event in the library's root
    package (`ServiceEvent` beside `events/ServiceEvent`): a different class,
    with its own `State` enum, `m`-prefixed fields and the same `equals` and
    `hashCode`. The lemmas show that it behaves exactly like the newer
    one, a null state included. */
module LegacyServiceEvents {
  import opened JavaLang
  import Events = ServiceEvents

  /** `ServiceEvent.State` of the root package. */
  datatype State = Connected | Disconnected

  datatype ServiceEvent<P> =
    ServiceEvent(mState: Nullable<State>, mProfileType: int32, mBluetoothProfile: Nullable<P>)
  {
    function GetState(): Nullable<State> { mState }
    function GetProfileType(): int32 { mProfileType }
    function GetBluetoothProfile(): Nullable<P> { mBluetoothProfile }
  }

  /** `State` has the two constants and no other. */
  lemma StateHasTwoValues(s: State)
    ensures s == Connected || s == Disconnected
    ensures Connected != Disconnected
  {
  }

  /** The getters hand back what the constructor was given. */
  lemma GettersReturnArguments<P>(state: Nullable<State>, profileType: int32, profile: Nullable<P>)
    ensures var e := ServiceEvent(state, profileType, profile);
            e.GetState() == state && e.GetProfileType() == profileType &&
            e.GetBluetoothProfile() == profile
  {
  }

  /** `equals(Object)`, with the same conventions as the newer class. */
  function Equals<P(==)>(e: ServiceEvent<P>, other: Nullable<ServiceEvent<P>>,
                         profileEq: (P, P) -> bool): bool
  {
    if other == Ref(e) then true
    else if other.Null? then false
    else
      var that := other.get;
      if e.mProfileType != that.mProfileType then false
      else if e.mState != that.mState then false
      else NullSafeEquals(e.mBluetoothProfile, that.mBluetoothProfile, profileEq)
  }

  /** `hashCode()`: `31 * (31 * stateHash + mProfileType) + profileHash`;
      throws for a null state. */
  function HashCode<P>(e: ServiceEvent<P>, stateHash: State -> int32, profileHash: P -> int32): Outcome<int32> {
    if e.mState.Null? then ThrowsNullPointer
    else
      var result := stateHash(e.mState.get);
      var result := Hash31(result, e.mProfileType);
      Returns(Hash31(result, NullSafeHash(e.mBluetoothProfile, profileHash)))
  }

  /** The enum constant of the newer class with the same name. */
  function ToEventsState(s: State): Events.State {
    match s
    case Connected => Events.Connected
    case Disconnected => Events.Disconnected
  }

  function ToEventsStateNullable(s: Nullable<State>): Nullable<Events.State> {
    match s
    case Null => Null
    case Ref(t) => Ref(ToEventsState(t))
  }

  /** The same event, as an instance of the newer class. */
  function ToEvents<P>(e: ServiceEvent<P>): Events.ServiceEvent<P> {
    Events.ServiceEvent(ToEventsStateNullable(e.mState), e.mProfileType, e.mBluetoothProfile)
  }

  function ToEventsNullable<P>(o: Nullable<ServiceEvent<P>>): Nullable<Events.ServiceEvent<P>> {
    match o
    case Null => Null
    case Ref(e) => Ref(ToEvents(e))
  }

  /** The two classes compare and hash alike, once the enum constants are
      matched by name and hash alike. */
  lemma AgreesWithEventsPackage<P>(e: ServiceEvent<P>, other: Nullable<ServiceEvent<P>>,
                                   profileEq: (P, P) -> bool,
                                   stateHash: State -> int32, eventsStateHash: Events.State -> int32,
                                   profileHash: P -> int32)
    requires forall s :: stateHash(s) == eventsStateHash(ToEventsState(s))
    ensures Equals(e, other, profileEq) == Events.Equals(ToEvents(e), ToEventsNullable(other), profileEq)
    ensures HashCode(e, stateHash, profileHash) == Events.HashCode(ToEvents(e), eventsStateHash, profileHash)
  {
    if other.Ref? {
      assert e.mState == other.get.mState <==>
             ToEventsStateNullable(e.mState) == ToEventsStateNullable(other.get.mState);
    }
  }

  /** `equals` is reflexive whatever the profile's own `equals` does. */
  lemma EqualsReflexive<P>(e: ServiceEvent<P>, profileEq: (P, P) -> bool)
    ensures Equals(e, Ref(e), profileEq)
  {
  }

  /** With a reflexive profile `equals`, two events are equal exactly when
      profile type and state match and the profiles are both null or
      equal. */
  lemma EqualsIff<P(!new)>(a: ServiceEvent<P>, b: ServiceEvent<P>, profileEq: (P, P) -> bool)
    requires forall p :: profileEq(p, p)
    ensures Equals(a, Ref(b), profileEq) <==>
            a.mProfileType == b.mProfileType && a.mState == b.mState &&
            NullSafeEquals(a.mBluetoothProfile, b.mBluetoothProfile, profileEq)
  {
    AgreesWithEventsPackage(a, Ref(b), profileEq, _ => 0, _ => 0, _ => 0);
    Events.EqualsIff(ToEvents(a), ToEvents(b), profileEq);
  }

  /** The hash is `961 * stateHash + 31 * mProfileType + profileHash`
      modulo 2^32, as for the newer class; with a null state, `hashCode`
      throws. */
  lemma HashCodeClosedForm<P>(e: ServiceEvent<P>, stateHash: State -> int32, profileHash: P -> int32)
    ensures e.mState.Null? ==> HashCode(e, stateHash, profileHash) == ThrowsNullPointer
    ensures e.mState.Ref? ==>
              HashCode(e, stateHash, profileHash) ==
              Returns(Wrap(961 * stateHash(e.mState.get) as int + 31 * e.mProfileType as int +
                           NullSafeHash(e.mBluetoothProfile, profileHash) as int))
  {
    if e.mState.Ref? {
      Hash31Twice(stateHash(e.mState.get), e.mProfileType, NullSafeHash(e.mBluetoothProfile, profileHash));
    }
  }
}
