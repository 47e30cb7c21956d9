/** The connection-state change event (`events/ConnectionStateEvent`): an
    immutable record of the new state, the previous state and the device,
    with hand-written `equals` and `hashCode`. The device type `D` is
    Android's `BluetoothDevice`; its own `equals` and `hashCode` are foreign
    and are passed in as `devEq` and `devHash`. */
module ConnectionStateEvents {
  import opened JavaLang

  datatype ConnectionStateEvent<D> =
    ConnectionStateEvent(state: int32, previousState: int32, bluetoothDevice: Nullable<D>)
  {
    function GetState(): int32 { state }
    function GetPreviousState(): int32 { previousState }
    function GetBluetoothDevice(): Nullable<D> { bluetoothDevice }
  }

  /** The getters hand back what the constructor was given. */
  lemma GettersReturnArguments<D>(state: int32, previousState: int32, device: Nullable<D>)
    ensures var e := ConnectionStateEvent(state, previousState, device);
            e.GetState() == state && e.GetPreviousState() == previousState &&
            e.GetBluetoothDevice() == device
  {
  }

  /** `equals(Object)`: `other` is `Null` for a null argument or one of
      another class. The identity shortcut `this == o` is taken when the
      argument is this very record. */
  function Equals<D(==)>(e: ConnectionStateEvent<D>, other: Nullable<ConnectionStateEvent<D>>,
                     devEq: (D, D) -> bool): bool
  {
    if other == Ref(e) then true
    else if other.Null? then false
    else
      var that := other.get;
      if e.state != that.state then false
      else if e.previousState != that.previousState then false
      else NullSafeEquals(e.bluetoothDevice, that.bluetoothDevice, devEq)
  }

  /** `hashCode()`: `31 * (31 * state + previousState) + deviceHash`, in
      Java `int` arithmetic. */
  function HashCode<D>(e: ConnectionStateEvent<D>, devHash: D -> int32): int32 {
    var result := e.state;
    var result := Hash31(result, e.previousState);
    Hash31(result, NullSafeHash(e.bluetoothDevice, devHash))
  }

  /** `equals` is reflexive whatever the device's own `equals` does. */
  lemma EqualsReflexive<D>(e: ConnectionStateEvent<D>, devEq: (D, D) -> bool)
    ensures Equals(e, Ref(e), devEq)
  {
  }

  /** An event never equals `null` (or an object of another class). */
  lemma NotEqualToNull<D>(e: ConnectionStateEvent<D>, devEq: (D, D) -> bool)
    ensures !Equals(e, Null, devEq)
  {
  }

  /** With a device `equals` that is reflexive, as Java's contract asks,
      two events are equal exactly when both states match and the devices
      are both null or equal. */
  lemma EqualsIff<D(!new)>(a: ConnectionStateEvent<D>, b: ConnectionStateEvent<D>, devEq: (D, D) -> bool)
    requires forall d :: devEq(d, d)
    ensures Equals(a, Ref(b), devEq) <==>
            a.state == b.state && a.previousState == b.previousState &&
            NullSafeEquals(a.bluetoothDevice, b.bluetoothDevice, devEq)
  {
    if a == b && a.bluetoothDevice.Ref? {
      assert devEq(a.bluetoothDevice.get, b.bluetoothDevice.get);
    }
  }

  /** With a symmetric device `equals`, event `equals` is symmetric. */
  lemma EqualsSymmetric<D(!new)>(a: ConnectionStateEvent<D>, b: ConnectionStateEvent<D>, devEq: (D, D) -> bool)
    requires forall d, d' :: devEq(d, d') ==> devEq(d', d)
    ensures Equals(a, Ref(b), devEq) <==> Equals(b, Ref(a), devEq)
  {
  }

  /** The hash is the polynomial `961 * state + 31 * previousState +
      deviceHash` taken modulo 2^32: the intermediate wrap-around is
      harmless. */
  lemma HashCodeClosedForm<D>(e: ConnectionStateEvent<D>, devHash: D -> int32)
    ensures HashCode(e, devHash) ==
            Wrap(961 * e.state as int + 31 * e.previousState as int +
                 NullSafeHash(e.bluetoothDevice, devHash) as int)
  {
    Hash31Twice(e.state, e.previousState, NullSafeHash(e.bluetoothDevice, devHash));
  }

  /** Equal events have equal hash codes, provided the device's `hashCode`
      keeps the contract with its `equals`. */
  lemma EqualEventsEqualHash<D(!new)>(a: ConnectionStateEvent<D>, b: ConnectionStateEvent<D>,
                                       devEq: (D, D) -> bool, devHash: D -> int32)
    requires HashConsistent(devEq, devHash)
    requires Equals(a, Ref(b), devEq)
    ensures HashCode(a, devHash) == HashCode(b, devHash)
  {
    if a != b {
      NullSafeHashConsistent(a.bluetoothDevice, b.bluetoothDevice, devEq, devHash);
    }
  }
}
