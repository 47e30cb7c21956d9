/** The ACL event (`events/AclEvent`): an immutable record of a broadcast
    ACL action name and the device, with hand-written `equals` and
    `hashCode`. The device's `equals` and `hashCode` are passed in as
    `devEq` and `devHash`; `String.equals` is value equality and
    `String.hashCode` is `JavaLang.StringHash`. */
module AclEvents {
  import opened JavaLang

  datatype AclEvent<D> = AclEvent(mAction: Nullable<string>, mBluetoothDevice: Nullable<D>)
  {
    function GetAction(): Nullable<string> { mAction }
    function GetBluetoothDevice(): Nullable<D> { mBluetoothDevice }
  }

  /** The getters hand back what the constructor was given. */
  lemma GettersReturnArguments<D>(action: Nullable<string>, device: Nullable<D>)
    ensures var e := AclEvent(action, device);
            e.GetAction() == action && e.GetBluetoothDevice() == device
  {
  }

  /** `equals(Object)` as written: the action is compared only when this
      event's action is non-null, so a null action matches any action. */
  function Equals<D(==)>(e: AclEvent<D>, other: Nullable<AclEvent<D>>, devEq: (D, D) -> bool): bool {
    if other == Ref(e) then true
    else if other.Null? then false
    else
      var that := other.get;
      if e.mAction.Ref? && Ref(e.mAction.get) != that.mAction then false
      else NullSafeEquals(e.mBluetoothDevice, that.mBluetoothDevice, devEq)
  }

  /** `hashCode()`: `31 * actionHash + deviceHash`, in Java `int`
      arithmetic, each hash being 0 for a null field. */
  function HashCode<D>(e: AclEvent<D>, devHash: D -> int32): int32 {
    var result := NullSafeHash(e.mAction, StringHash);
    Hash31(result, NullSafeHash(e.mBluetoothDevice, devHash))
  }

  /** `equals` is reflexive whatever the device's own `equals` does. */
  lemma EqualsReflexive<D>(e: AclEvent<D>, devEq: (D, D) -> bool)
    ensures Equals(e, Ref(e), devEq)
  {
  }

  /** With a non-null action on this side and a reflexive device `equals`,
      two events are equal exactly when the actions are equal and the
      devices are both null or equal. */
  lemma EqualsWithAction<D(!new)>(a: AclEvent<D>, b: AclEvent<D>, devEq: (D, D) -> bool)
    requires forall d :: devEq(d, d)
    requires a.mAction.Ref?
    ensures Equals(a, Ref(b), devEq) <==>
            a.mAction == b.mAction && NullSafeEquals(a.mBluetoothDevice, b.mBluetoothDevice, devEq)
  {
    if a == b && a.mBluetoothDevice.Ref? {
      assert devEq(a.mBluetoothDevice.get, b.mBluetoothDevice.get);
    }
  }

  /** With a null action on this side, the other event's action is not
      looked at: only the devices decide. */
  lemma NullActionIgnoresOtherAction<D(!new)>(a: AclEvent<D>, b: AclEvent<D>, devEq: (D, D) -> bool)
    requires forall d :: devEq(d, d)
    requires a.mAction.Null?
    ensures Equals(a, Ref(b), devEq) <==> NullSafeEquals(a.mBluetoothDevice, b.mBluetoothDevice, devEq)
  {
    if a == b && a.mBluetoothDevice.Ref? {
      assert devEq(a.mBluetoothDevice.get, b.mBluetoothDevice.get);
    }
  }

  /** `equals` is not symmetric: an event without an action equals one with
      an action and the same device, but not the other way round. */
  lemma EqualsNotSymmetric<D>(action: string, device: Nullable<D>, devEq: (D, D) -> bool)
    requires device.Ref? ==> devEq(device.get, device.get)
    ensures var a, b := AclEvent(Null, device), AclEvent(Ref(action), device);
            Equals(a, Ref(b), devEq) && !Equals(b, Ref(a), devEq)
  {
  }

  /** The hash is `31 * actionHash + deviceHash` modulo 2^32. */
  lemma HashCodeClosedForm<D>(e: AclEvent<D>, devHash: D -> int32)
    ensures HashCode(e, devHash) ==
            Wrap(31 * NullSafeHash(e.mAction, StringHash) as int + NullSafeHash(e.mBluetoothDevice, devHash) as int)
  {
  }

  /** Multiplying by 31 (an odd number) never wraps a non-zero `int` to 0. */
  lemma ThirtyOneTimesNonZero(h: int32)
    requires h != 0
    ensures Wrap(31 * h as int) != 0
  {
  }

  /** The as-written `equals` breaks the `equals`/`hashCode` contract: the
      event without an action equals the one with an action whose hash is
      not 0, yet their hash codes differ. */
  lemma EqualEventsDifferentHash<D>(action: string, devEq: (D, D) -> bool, devHash: D -> int32)
    requires StringHash(action) != 0
    ensures var a, b := AclEvent(Null, Null), AclEvent(Ref(action), Null);
            Equals(a, Ref(b), devEq) && HashCode(a, devHash) != HashCode(b, devHash)
  {
    ThirtyOneTimesNonZero(StringHash(action));
  }

  /** The smallest case: `new AclEvent(null, null)` equals
      `new AclEvent("x", null)`, whose hash code is `31 * 120 = 3720`, while
      its own is 0. */
  lemma NullActionCounterexample<D>(devEq: (D, D) -> bool, devHash: D -> int32)
    ensures var a, b := AclEvent(Null, Null), AclEvent(Ref("x"), Null);
            Equals(a, Ref(b), devEq) && HashCode(a, devHash) == 0 && HashCode(b, devHash) == 3720
  {
    StringHashOneChar('x');
  }

  /** `equals` as the rest of the library writes it: the action is compared
      with the same null-safe idiom as the device. */
  function EqualsNullSafe<D(==)>(e: AclEvent<D>, other: Nullable<AclEvent<D>>, devEq: (D, D) -> bool): bool {
    if other == Ref(e) then true
    else if other.Null? then false
    else
      var that := other.get;
      NullSafeEquals(e.mAction, that.mAction, (x: string, y: string) => x == y) &&
      NullSafeEquals(e.mBluetoothDevice, that.mBluetoothDevice, devEq)
  }

  /** The null-safe `equals` differs from the written one only for an event
      without an action. */
  lemma EqualsNullSafeAgreesWithAction<D>(a: AclEvent<D>, other: Nullable<AclEvent<D>>, devEq: (D, D) -> bool)
    requires a.mAction.Ref?
    ensures EqualsNullSafe(a, other, devEq) == Equals(a, other, devEq)
  {
  }

  /** The null-safe `equals` is reflexive, and symmetric when the device's
      `equals` is. */
  lemma EqualsNullSafeSymmetric<D(!new)>(a: AclEvent<D>, b: AclEvent<D>, devEq: (D, D) -> bool)
    requires forall d, d' :: devEq(d, d') ==> devEq(d', d)
    ensures EqualsNullSafe(a, Ref(a), devEq)
    ensures EqualsNullSafe(a, Ref(b), devEq) <==> EqualsNullSafe(b, Ref(a), devEq)
  {
  }

  /** With the null-safe `equals`, equal events have equal hash codes
      whenever the device's `hashCode` keeps the contract with its
      `equals`. */
  lemma EqualsNullSafeEqualHash<D(!new)>(a: AclEvent<D>, b: AclEvent<D>, devEq: (D, D) -> bool, devHash: D -> int32)
    requires HashConsistent(devEq, devHash)
    requires EqualsNullSafe(a, Ref(b), devEq)
    ensures HashCode(a, devHash) == HashCode(b, devHash)
  {
    if a != b {
      assert a.mAction == b.mAction;
      NullSafeHashConsistent(a.mBluetoothDevice, b.mBluetoothDevice, devEq, devHash);
    }
  }
}
