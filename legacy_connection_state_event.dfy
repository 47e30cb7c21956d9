/** The older copy of the connection-state change event that still lives in
    the library's root package (`ConnectionStateEvent` beside
    `events/ConnectionStateEvent`). It is a different class with the same
    fields under `m`-prefixed names and the same `equals` and `hashCode`;
    the lemmas here show that it behaves exactly like the newer one. */
module LegacyConnectionStateEvents {
  import opened JavaLang
  import Events = ConnectionStateEvents

  datatype ConnectionStateEvent<D> =
    ConnectionStateEvent(mState: int32, mPreviousState: int32, mBluetoothDevice: Nullable<D>)
  {
    function GetState(): int32 { mState }
    function GetPreviousState(): int32 { mPreviousState }
    function GetBluetoothDevice(): Nullable<D> { mBluetoothDevice }
  }

  /** The getters hand back what the constructor was given. */
  lemma GettersReturnArguments<D>(state: int32, previousState: int32, device: Nullable<D>)
    ensures var e := ConnectionStateEvent(state, previousState, device);
            e.GetState() == state && e.GetPreviousState() == previousState &&
            e.GetBluetoothDevice() == device
  {
  }

  /** `equals(Object)`, with the same conventions as the newer class. */
  function Equals<D(==)>(e: ConnectionStateEvent<D>, other: Nullable<ConnectionStateEvent<D>>,
                         devEq: (D, D) -> bool): bool
  {
    if other == Ref(e) then true
    else if other.Null? then false
    else
      var that := other.get;
      if e.mState != that.mState then false
      else if e.mPreviousState != that.mPreviousState then false
      else NullSafeEquals(e.mBluetoothDevice, that.mBluetoothDevice, devEq)
  }

  /** `hashCode()`: `31 * (31 * mState + mPreviousState) + deviceHash`. */
  function HashCode<D>(e: ConnectionStateEvent<D>, devHash: D -> int32): int32 {
    var result := e.mState;
    var result := Hash31(result, e.mPreviousState);
    Hash31(result, NullSafeHash(e.mBluetoothDevice, devHash))
  }

  /** The same event, as an instance of the newer class. */
  function ToEvents<D>(e: ConnectionStateEvent<D>): Events.ConnectionStateEvent<D> {
    Events.ConnectionStateEvent(e.mState, e.mPreviousState, e.mBluetoothDevice)
  }

  function ToEventsNullable<D>(o: Nullable<ConnectionStateEvent<D>>): Nullable<Events.ConnectionStateEvent<D>> {
    match o
    case Null => Null
    case Ref(e) => Ref(ToEvents(e))
  }

  /** The two classes compare and hash alike: `equals` and `hashCode` of the
      old class give the results of the new one on the same fields. */
  lemma AgreesWithEventsPackage<D>(e: ConnectionStateEvent<D>, other: Nullable<ConnectionStateEvent<D>>,
                                   devEq: (D, D) -> bool, devHash: D -> int32)
    ensures Equals(e, other, devEq) == Events.Equals(ToEvents(e), ToEventsNullable(other), devEq)
    ensures HashCode(e, devHash) == Events.HashCode(ToEvents(e), devHash)
  {
  }

  /** `equals` is reflexive whatever the device's own `equals` does. */
  lemma EqualsReflexive<D>(e: ConnectionStateEvent<D>, devEq: (D, D) -> bool)
    ensures Equals(e, Ref(e), devEq)
  {
    AgreesWithEventsPackage(e, Ref(e), devEq, _ => 0);
    Events.EqualsReflexive(ToEvents(e), devEq);
  }

  /** With a reflexive device `equals`, two events are equal exactly when
      both states match and the devices are both null or equal. */
  lemma EqualsIff<D(!new)>(a: ConnectionStateEvent<D>, b: ConnectionStateEvent<D>, devEq: (D, D) -> bool)
    requires forall d :: devEq(d, d)
    ensures Equals(a, Ref(b), devEq) <==>
            a.mState == b.mState && a.mPreviousState == b.mPreviousState &&
            NullSafeEquals(a.mBluetoothDevice, b.mBluetoothDevice, devEq)
  {
    AgreesWithEventsPackage(a, Ref(b), devEq, _ => 0);
    Events.EqualsIff(ToEvents(a), ToEvents(b), devEq);
  }

  /** The hash is `961 * mState + 31 * mPreviousState + deviceHash` modulo
      2^32, as for the newer class. */
  lemma HashCodeClosedForm<D>(e: ConnectionStateEvent<D>, devHash: D -> int32)
    ensures HashCode(e, devHash) ==
            Wrap(961 * e.mState as int + 31 * e.mPreviousState as int +
                 NullSafeHash(e.mBluetoothDevice, devHash) as int)
  {
    Hash31Twice(e.mState, e.mPreviousState, NullSafeHash(e.mBluetoothDevice, devHash));
  }
}
