# RxBluetooth core in Dafny

A model of the logic inside RxBluetooth, a reactive wrapper around Android's
Bluetooth API. The model covers four things.

- `BluetoothConnection`, a socket with its input and output streams:
  - construction, including the failure path;
  - `send`, which is gated on the `connected` flag;
  - `closeConnection`;
  - the shared byte stream fed by a read loop;
  - the per-subscriber string framer behind `observeStringStream`.
- The filter helpers `BtPredicate.in`, `Action.isEqualTo` and
  `DiscoveryState.isEqualTo`/`isNotEqualTo`.
- The `DiscoveryState` enum and its action strings.
- The immutable event records `ConnectionStateEvent`, `BondStateEvent`,
  `ServiceEvent` and `AclEvent`, in both the `events` package and the older
  root-package copies, with their hand-written `equals` and `hashCode`.

Layout, one module per file:

| file | module | models |
|---|---|---|
| `java_lang.dfy` | `JavaLang` | nullable references, Java `int` wrap-around, the null-safe `equals`/`hashCode` idiom |
| `connection_state_event.dfy` | `ConnectionStateEvents` | `events/ConnectionStateEvent` |
| `legacy_connection_state_event.dfy` | `LegacyConnectionStateEvents` | root-package `ConnectionStateEvent` |
| `bond_state_event.dfy` | `BondStateEvents` | `events/BondStateEvent` |
| `service_event.dfy` | `ServiceEvents` | `events/ServiceEvent` |
| `legacy_service_event.dfy` | `LegacyServiceEvents` | root-package `ServiceEvent` |
| `acl_event.dfy` | `AclEvents` | `events/AclEvent` |
| `bt_predicate.dfy` | `BtPredicates` | `predicates/BtPredicate.in` |
| `action.dfy` | `Actions` | `Action.isEqualTo` |
| `discovery_state.dfy` | `DiscoveryStates` | `DiscoveryState` |
| `framer.dfy` | `Framing` | the framer of `observeStringStream` (a class, plus a reference function) |
| `framer_properties.dfy` | `FramerProperties` | what the framer guarantees, and where it departs from "one token per delimiter" |
| `membership_framer.dfy` | `MembershipFraming` | framing with one token per delimiter byte, one reading of the documentation |
| `bluetooth_connection.dfy` | `Connections` | the connection lifecycle, the read loop, `send`, `closeConnection` |

Modelling choices:

- Java `int` is `JavaLang.int32`. Hash codes are computed in it with
  explicit wrap-around modulo 2^32.
- A nullable reference is `Nullable<T>`. In an `equals` argument, `Null`
  also stands for an object of another class, because the `getClass()`
  check rejects both alike. The `ServiceEvent` state and the
  `DiscoveryState` values given to the filters may be null too.
- The `this == o` shortcut is modelled as equality of record values.
- `String.hashCode` is modelled exactly (`JavaLang.StringHash`), and
  `String.equals` is value equality.
- The `equals` and `hashCode` of `BluetoothDevice` and `BluetoothProfile`,
  and the identity hash of an enum constant, are foreign code.
  Each is a function parameter (`devEq`, `devHash`, `stateHash`, …). A lemma
  that needs a property of such a function, such as reflexivity or
  consistency between `equals` and `hashCode`, states it as a precondition.
- The elements' `equals` in `BtPredicate.in` and `Action.isEqualTo` is
  value equality. A null element makes the call throw a
  `NullPointerException`, modelled as the `ThrowsNullPointer` outcome. Both
  are functions, so testing the same object twice gives the same result by
  construction.
- Bytes are Java's signed `byte` (`Framing.Byte`, -128..127). Tokens are
  byte sequences.
- Every I/O outcome the connection meets is a parameter of the operation
  that meets it:
  - whether the socket hands out each stream;
  - whether a write and flush succeed;
  - for each read, whether it yields a byte or fails.
- The socket and the streams are `Resource` objects with a `released` flag.
- `Utils.close` is a release that always takes effect, because it swallows
  the `IOException`.

The framer is modelled as the code behaves. Its documentation names
'\r' and '\n' "as delimiter", and `delimiter` as the "char(s) used for
string delimiter", without saying whether the delimiters end a token one
by one or only as the whole sequence. The code:
- appends each delimiter byte to `receivedDelimiters`;
- swallows the delimiter byte when that list then equals the configured
  delimiters (the `Arrays.equals` of `delimitersMatched`), and otherwise
  emits the buffer;
- clears the list only when it emits a non-empty token.

Consequences:
- With the default `'\r', '\n'`, "\r\n" with nothing buffered or
  received (a fresh framer, or right after a non-empty token) gives one
  empty token, not two (`DefaultCrLfEmitsOneEmptyToken`). After an empty
  token the received list stays full, so a further "\r\n" gives two
  (`DefaultCrLfAfterEmptyToken`).
- A line followed by "\r\n" gives the line and then "" (`DefaultCrLfAfterText`).
- With a single delimiter, the first delimiter of the stream and the first
  one after each non-empty token are swallowed, so two lines come out as
  one (`SingleDelimiterMergesLines`, see Findings). Empty lines are not
  merged: once an empty token is emitted the received list stays full, and
  every later delimiter emits until the next non-empty token clears the
  list (`SingleDelimiterEmptyLines`).

`MembershipFraming` models one reading of the documentation, in which
every delimiter byte ends a token. With a single delimiter both readings
agree, and there the code departs from it.

## Model

| member | source | states |
|---|---|---|
| JavaLang.Wrap | rxbluetooth/src/main/java/com/github/ivbaranov/rxbluetooth/events/ConnectionStateEvent.java:67-72 | the result is the one Java `int` congruent to the exact value modulo 2^32, and is the value itself when it fits in an `int` |
| JavaLang.WrapCongruent | rxbluetooth/src/main/java/com/github/ivbaranov/rxbluetooth/events/ConnectionStateEvent.java:67-72 | values congruent modulo 2^32 wrap to the same `int` |
| JavaLang.Hash31Twice | rxbluetooth/src/main/java/com/github/ivbaranov/rxbluetooth/events/ConnectionStateEvent.java:68-70 | two `31 * result + x` steps, each wrapped, equal the exact polynomial `961a + 31b + c` wrapped once |
| JavaLang.StringHash | rxbluetooth/src/main/java/com/github/ivbaranov/rxbluetooth/events/AclEvent.java:58 | `String.hashCode`: `31 * h + c` over the characters, in Java `int` arithmetic (characterised by `StringHashIsPolynomial`) |
| JavaLang.StringHashIsPolynomial | rxbluetooth/src/main/java/com/github/ivbaranov/rxbluetooth/events/AclEvent.java:58 | the string hash is the documented polynomial `s[0]*31^(n-1) + ... + s[n-1]` modulo 2^32 |
| JavaLang.StringHashOneChar | rxbluetooth/src/main/java/com/github/ivbaranov/rxbluetooth/events/AclEvent.java:58 | a one-character string hashes to its character code; "x" hashes to 120 |
| JavaLang.NullSafeEqualsReflexive | rxbluetooth/src/main/java/com/github/ivbaranov/rxbluetooth/events/ConnectionStateEvent.java:63-64 | the `x != null ? x.equals(y) : y == null` idiom is reflexive when the foreign `equals` is, and a field equals null exactly when it is null |
| JavaLang.NullSafeEqualsSymmetric | rxbluetooth/src/main/java/com/github/ivbaranov/rxbluetooth/events/ConnectionStateEvent.java:63-64 | the idiom is symmetric when the foreign `equals` is |
| JavaLang.NullSafeEqualsTransitive | rxbluetooth/src/main/java/com/github/ivbaranov/rxbluetooth/events/ConnectionStateEvent.java:63-64 | the idiom is transitive when the foreign `equals` is |
| JavaLang.NullSafeHashConsistent | rxbluetooth/src/main/java/com/github/ivbaranov/rxbluetooth/events/ConnectionStateEvent.java:55-72 | the `x != null ? x.hashCode() : 0` idiom: if the foreign `hashCode` agrees on equal objects, the null-safe hash agrees on null-safe-equal fields |
| ConnectionStateEvents.GettersReturnArguments | rxbluetooth/src/main/java/com/github/ivbaranov/rxbluetooth/events/ConnectionStateEvent.java:37-53 | each getter returns its constructor argument unchanged |
| ConnectionStateEvents.Equals | rxbluetooth/src/main/java/com/github/ivbaranov/rxbluetooth/events/ConnectionStateEvent.java:55-65 | `equals` as written: the same event, then the class check, then state, previous state and the null-safe device comparison (characterised by `EqualsIff`, `EqualsSymmetric`, `NotEqualToNull`) |
| ConnectionStateEvents.HashCode | rxbluetooth/src/main/java/com/github/ivbaranov/rxbluetooth/events/ConnectionStateEvent.java:67-72 | `hashCode` as written (characterised by `HashCodeClosedForm`, `EqualEventsEqualHash`) |
| ConnectionStateEvents.EqualsReflexive | rxbluetooth/src/main/java/com/github/ivbaranov/rxbluetooth/events/ConnectionStateEvent.java:55-56 | an event equals itself, whatever the device's `equals` does |
| ConnectionStateEvents.NotEqualToNull | rxbluetooth/src/main/java/com/github/ivbaranov/rxbluetooth/events/ConnectionStateEvent.java:57 | an event never equals null or an object of another class |
| ConnectionStateEvents.EqualsIff | rxbluetooth/src/main/java/com/github/ivbaranov/rxbluetooth/events/ConnectionStateEvent.java:55-65 | for a reflexive device `equals`: equal exactly when both states match and the devices are both null or equal |
| ConnectionStateEvents.EqualsSymmetric | rxbluetooth/src/main/java/com/github/ivbaranov/rxbluetooth/events/ConnectionStateEvent.java:55-65 | `equals` is symmetric when the device's `equals` is |
| ConnectionStateEvents.HashCodeClosedForm | rxbluetooth/src/main/java/com/github/ivbaranov/rxbluetooth/events/ConnectionStateEvent.java:67-72 | the hash is `961 * state + 31 * previousState + deviceHash` (0 for no device) modulo 2^32 |
| ConnectionStateEvents.EqualEventsEqualHash | rxbluetooth/src/main/java/com/github/ivbaranov/rxbluetooth/events/ConnectionStateEvent.java:55-72 | equal events have equal hash codes when the device's `hashCode` keeps its contract |
| LegacyConnectionStateEvents.GettersReturnArguments | rxbluetooth/src/main/java/com/github/ivbaranov/rxbluetooth/ConnectionStateEvent.java:37-53 | each getter returns its constructor argument unchanged |
| LegacyConnectionStateEvents.Equals | rxbluetooth/src/main/java/com/github/ivbaranov/rxbluetooth/ConnectionStateEvent.java:55-65 | `equals` as written (characterised by `AgreesWithEventsPackage`, `EqualsIff`) |
| LegacyConnectionStateEvents.HashCode | rxbluetooth/src/main/java/com/github/ivbaranov/rxbluetooth/ConnectionStateEvent.java:67-72 | `hashCode` as written (characterised by `HashCodeClosedForm`) |
| LegacyConnectionStateEvents.AgreesWithEventsPackage | rxbluetooth/src/main/java/com/github/ivbaranov/rxbluetooth/ConnectionStateEvent.java:55-72 | the root-package `equals` and `hashCode` give the same answers as the `events` package version on the same fields |
| LegacyConnectionStateEvents.EqualsReflexive | rxbluetooth/src/main/java/com/github/ivbaranov/rxbluetooth/ConnectionStateEvent.java:55-56 | an event equals itself |
| LegacyConnectionStateEvents.EqualsIff | rxbluetooth/src/main/java/com/github/ivbaranov/rxbluetooth/ConnectionStateEvent.java:55-65 | for a reflexive device `equals`: equal exactly when `mState` and `mPreviousState` match and the devices are both null or equal |
| LegacyConnectionStateEvents.HashCodeClosedForm | rxbluetooth/src/main/java/com/github/ivbaranov/rxbluetooth/ConnectionStateEvent.java:67-72 | the hash is `961 * mState + 31 * mPreviousState + deviceHash` modulo 2^32 |
| BondStateEvents.GettersReturnArguments | rxbluetooth/src/main/java/com/github/ivbaranov/rxbluetooth/events/BondStateEvent.java:35-51 | each getter returns its constructor argument unchanged |
| BondStateEvents.Equals | rxbluetooth/src/main/java/com/github/ivbaranov/rxbluetooth/events/BondStateEvent.java:53-63 | `equals` as written (characterised by `EqualsIff`, `EqualsSymmetric`, `NotEqualToNull`) |
| BondStateEvents.HashCode | rxbluetooth/src/main/java/com/github/ivbaranov/rxbluetooth/events/BondStateEvent.java:65-70 | `hashCode` as written (characterised by `HashCodeClosedForm`, `EqualEventsEqualHash`) |
| BondStateEvents.EqualsReflexive | rxbluetooth/src/main/java/com/github/ivbaranov/rxbluetooth/events/BondStateEvent.java:53-54 | an event equals itself |
| BondStateEvents.NotEqualToNull | rxbluetooth/src/main/java/com/github/ivbaranov/rxbluetooth/events/BondStateEvent.java:55 | an event never equals null or an object of another class |
| BondStateEvents.EqualsIff | rxbluetooth/src/main/java/com/github/ivbaranov/rxbluetooth/events/BondStateEvent.java:53-63 | for a reflexive device `equals`: equal exactly when both states match and the devices are both null or equal |
| BondStateEvents.EqualsSymmetric | rxbluetooth/src/main/java/com/github/ivbaranov/rxbluetooth/events/BondStateEvent.java:53-63 | `equals` is symmetric when the device's `equals` is |
| BondStateEvents.HashCodeClosedForm | rxbluetooth/src/main/java/com/github/ivbaranov/rxbluetooth/events/BondStateEvent.java:65-70 | the hash is `961 * mState + 31 * mPreviousState + deviceHash` modulo 2^32 |
| BondStateEvents.EqualEventsEqualHash | rxbluetooth/src/main/java/com/github/ivbaranov/rxbluetooth/events/BondStateEvent.java:53-70 | equal events have equal hash codes when the device's `hashCode` keeps its contract |
| ServiceEvents.StateHasTwoValues | rxbluetooth/src/main/java/com/github/ivbaranov/rxbluetooth/events/ServiceEvent.java:27-29 | `State` has exactly the two distinct values CONNECTED and DISCONNECTED |
| ServiceEvents.GettersReturnArguments | rxbluetooth/src/main/java/com/github/ivbaranov/rxbluetooth/events/ServiceEvent.java:35-51 | each getter returns its constructor argument unchanged |
| ServiceEvents.Equals | rxbluetooth/src/main/java/com/github/ivbaranov/rxbluetooth/events/ServiceEvent.java:53-63 | `equals` as written: the state, possibly null, is compared by reference (characterised by `EqualsIff`) |
| ServiceEvents.HashCode | rxbluetooth/src/main/java/com/github/ivbaranov/rxbluetooth/events/ServiceEvent.java:65-70 | `hashCode` as written, throwing for a null state (characterised by `HashCodeClosedForm`, `EqualEventsEqualHash`) |
| ServiceEvents.EqualsReflexive | rxbluetooth/src/main/java/com/github/ivbaranov/rxbluetooth/events/ServiceEvent.java:53-54 | an event equals itself |
| ServiceEvents.EqualsIff | rxbluetooth/src/main/java/com/github/ivbaranov/rxbluetooth/events/ServiceEvent.java:53-63 | for a reflexive profile `equals`: equal exactly when profile type and state match and the profiles are both null or equal |
| ServiceEvents.HashCodeClosedForm | rxbluetooth/src/main/java/com/github/ivbaranov/rxbluetooth/events/ServiceEvent.java:65-70 | with a null state `hashCode` throws; otherwise the hash is `961 * stateHash + 31 * profileType + profileHash` modulo 2^32 |
| ServiceEvents.EqualEventsEqualHash | rxbluetooth/src/main/java/com/github/ivbaranov/rxbluetooth/events/ServiceEvent.java:53-70 | equal events have equal hash codes (or both throw, for a null state) when the profile's `hashCode` keeps its contract |
| LegacyServiceEvents.StateHasTwoValues | rxbluetooth/src/main/java/com/github/ivbaranov/rxbluetooth/ServiceEvent.java:27-30 | `State` has exactly the two distinct values CONNECTED and DISCONNECTED |
| LegacyServiceEvents.GettersReturnArguments | rxbluetooth/src/main/java/com/github/ivbaranov/rxbluetooth/ServiceEvent.java:36-52 | each getter returns its constructor argument unchanged |
| LegacyServiceEvents.Equals | rxbluetooth/src/main/java/com/github/ivbaranov/rxbluetooth/ServiceEvent.java:54-64 | `equals` as written (characterised by `AgreesWithEventsPackage`, `EqualsIff`) |
| LegacyServiceEvents.HashCode | rxbluetooth/src/main/java/com/github/ivbaranov/rxbluetooth/ServiceEvent.java:66-71 | `hashCode` as written, throwing for a null state (characterised by `HashCodeClosedForm`) |
| LegacyServiceEvents.AgreesWithEventsPackage | rxbluetooth/src/main/java/com/github/ivbaranov/rxbluetooth/ServiceEvent.java:54-71 | the root-package `equals` and `hashCode` give the same answers as the `events` package version, given matching enum hashes |
| LegacyServiceEvents.EqualsReflexive | rxbluetooth/src/main/java/com/github/ivbaranov/rxbluetooth/ServiceEvent.java:54-55 | an event equals itself |
| LegacyServiceEvents.EqualsIff | rxbluetooth/src/main/java/com/github/ivbaranov/rxbluetooth/ServiceEvent.java:54-64 | for a reflexive profile `equals`: equal exactly when profile type and state match and the profiles are both null or equal |
| LegacyServiceEvents.HashCodeClosedForm | rxbluetooth/src/main/java/com/github/ivbaranov/rxbluetooth/ServiceEvent.java:66-71 | with a null state `hashCode` throws; otherwise the hash is `961 * stateHash + 31 * profileType + profileHash` modulo 2^32 |
| AclEvents.GettersReturnArguments | rxbluetooth/src/main/java/com/github/ivbaranov/rxbluetooth/events/AclEvent.java:33-44 | each getter returns its constructor argument unchanged |
| AclEvents.Equals | rxbluetooth/src/main/java/com/github/ivbaranov/rxbluetooth/events/AclEvent.java:46-55 | `equals` as written: the action is compared only when this event has one (characterised by `EqualsWithAction`, `NullActionIgnoresOtherAction`, `EqualsNotSymmetric`) |
| AclEvents.HashCode | rxbluetooth/src/main/java/com/github/ivbaranov/rxbluetooth/events/AclEvent.java:57-61 | `hashCode` as written, with `String.hashCode` for the action (characterised by `HashCodeClosedForm`) |
| AclEvents.EqualsReflexive | rxbluetooth/src/main/java/com/github/ivbaranov/rxbluetooth/events/AclEvent.java:46-47 | an event equals itself |
| AclEvents.EqualsWithAction | rxbluetooth/src/main/java/com/github/ivbaranov/rxbluetooth/events/AclEvent.java:46-55 | when this event has an action: equal exactly when the actions are equal and the devices are both null or equal |
| AclEvents.NullActionIgnoresOtherAction | rxbluetooth/src/main/java/com/github/ivbaranov/rxbluetooth/events/AclEvent.java:52-54 | when this event has no action, only the devices decide, whatever the other action is |
| AclEvents.EqualsNotSymmetric | rxbluetooth/src/main/java/com/github/ivbaranov/rxbluetooth/events/AclEvent.java:52 | an event without an action equals one with an action and the same device, but not the other way round |
| AclEvents.HashCodeClosedForm | rxbluetooth/src/main/java/com/github/ivbaranov/rxbluetooth/events/AclEvent.java:57-61 | the hash is `31 * actionHash + deviceHash` modulo 2^32, with `String.hashCode` for the action and each hash 0 when null |
| AclEvents.EqualEventsDifferentHash | rxbluetooth/src/main/java/com/github/ivbaranov/rxbluetooth/events/AclEvent.java:46-61 | an event with no action and no device equals one with an action whose string hash is non-zero, yet their hash codes differ |
| AclEvents.NullActionCounterexample | rxbluetooth/src/main/java/com/github/ivbaranov/rxbluetooth/events/AclEvent.java:46-61 | `new AclEvent(null, null)` equals `new AclEvent("x", null)`, yet their hash codes are 0 and 3720 |
| AclEvents.EqualsNullSafe | rxbluetooth/src/main/java/com/github/ivbaranov/rxbluetooth/events/AclEvent.java:46-55 | `equals` with the action compared by the null-safe idiom (characterised by `EqualsNullSafeAgreesWithAction`, `EqualsNullSafeSymmetric`, `EqualsNullSafeEqualHash`) |
| AclEvents.EqualsNullSafeAgreesWithAction | rxbluetooth/src/main/java/com/github/ivbaranov/rxbluetooth/events/AclEvent.java:52-54 | the null-safe `equals` gives the written answer whenever this event has an action |
| AclEvents.EqualsNullSafeSymmetric | rxbluetooth/src/main/java/com/github/ivbaranov/rxbluetooth/events/AclEvent.java:46-55 | the null-safe `equals` is reflexive, and symmetric when the device's `equals` is |
| AclEvents.EqualsNullSafeEqualHash | rxbluetooth/src/main/java/com/github/ivbaranov/rxbluetooth/events/AclEvent.java:46-61 | with the null-safe `equals`, equal events have equal hash codes when the device's `hashCode` keeps its contract |
| DiscoveryStates.ToString | rxbluetooth/src/main/java/com/github/ivbaranov/rxbluetooth/DiscoveryState.java:7-18 | each constant's string is its adapter action, and exactly that constant has it |
| DiscoveryStates.TwoConstants | rxbluetooth/src/main/java/com/github/ivbaranov/rxbluetooth/DiscoveryState.java:6-18 | there are exactly two constants, and `toString` tells them apart |
| DiscoveryStates.LastIs | rxbluetooth/src/main/java/com/github/ivbaranov/rxbluetooth/DiscoveryState.java:34-36 | the list is non-empty and its last element is the given state (either may be null) |
| DiscoveryStates.LastIsNot | rxbluetooth/src/main/java/com/github/ivbaranov/rxbluetooth/DiscoveryState.java:57-59 | the list is non-empty and its last element is not the given state |
| DiscoveryStates.IsEqualTo | rxbluetooth/src/main/java/com/github/ivbaranov/rxbluetooth/DiscoveryState.java:29-41 | true exactly when the list is non-empty and its last state is the given one, compared by reference, so null matches only null |
| DiscoveryStates.IsNotEqualTo | rxbluetooth/src/main/java/com/github/ivbaranov/rxbluetooth/DiscoveryState.java:52-64 | true exactly when the list is non-empty and its last state differs from the given one |
| DiscoveryStates.NotEqualIsNegation | rxbluetooth/src/main/java/com/github/ivbaranov/rxbluetooth/DiscoveryState.java:29-64 | with no states both filters reject everything; otherwise `isNotEqualTo` is the negation of `isEqualTo` |
| DiscoveryStates.SingleState | rxbluetooth/src/main/java/com/github/ivbaranov/rxbluetooth/DiscoveryState.java:34-36 | with one state, `isEqualTo` holds exactly when the states are equal and `isNotEqualTo` exactly when they differ |
| DiscoveryStates.LastIsIsNotMembership | rxbluetooth/src/main/java/com/github/ivbaranov/rxbluetooth/DiscoveryState.java:34-36 | `isEqualTo(STARTED, FINISHED)` rejects STARTED although it is listed, and `isNotEqualTo` accepts it |
| DiscoveryStates.IsEqualToAny | rxbluetooth/src/main/java/com/github/ivbaranov/rxbluetooth/DiscoveryState.java:29-41 | true exactly when the state is one of the listed states |
| DiscoveryStates.IsNotEqualToAll | rxbluetooth/src/main/java/com/github/ivbaranov/rxbluetooth/DiscoveryState.java:52-64 | true exactly when the state is none of the listed states |
| DiscoveryStates.AgreeOnSingleState | rxbluetooth/src/main/java/com/github/ivbaranov/rxbluetooth/DiscoveryState.java:29-64 | with a single state, the membership filters and the written filters agree |
| BtPredicates.In | rxbluetooth/src/main/java/com/github/ivbaranov/rxbluetooth/predicates/BtPredicate.java:33-44 | without null arguments: true exactly when a non-null object equals some argument; a true result always means such an argument exists |
| BtPredicates.InNoArguments | rxbluetooth/src/main/java/com/github/ivbaranov/rxbluetooth/predicates/BtPredicate.java:36-42 | with no arguments the predicate is false |
| BtPredicates.FirstMatchDecides | rxbluetooth/src/main/java/com/github/ivbaranov/rxbluetooth/predicates/BtPredicate.java:37-39 | once a prefix matches, anything after it, nulls included, leaves the answer true |
| BtPredicates.NullBeforeMatchThrows | rxbluetooth/src/main/java/com/github/ivbaranov/rxbluetooth/predicates/BtPredicate.java:36-37 | a null argument reached before any match makes the test throw |
| BtPredicates.InDependsOnlyOnSet | rxbluetooth/src/main/java/com/github/ivbaranov/rxbluetooth/predicates/BtPredicate.java:36-42 | without nulls, order and duplicates of the arguments do not change the answer |
| Actions.IsEqualTo | rxbluetooth/src/main/java/com/github/ivbaranov/rxbluetooth/Action.java:28-39 | without null actions: true exactly when a non-null action equals some listed action; a true result always means such an action exists |
| Actions.IsEqualToNoActions | rxbluetooth/src/main/java/com/github/ivbaranov/rxbluetooth/Action.java:31-36 | with no actions the answer is false |
| Actions.FirstMatchDecides | rxbluetooth/src/main/java/com/github/ivbaranov/rxbluetooth/Action.java:32-34 | once a prefix matches, anything after it leaves the answer true |
| Actions.AgreesWithIn | rxbluetooth/src/main/java/com/github/ivbaranov/rxbluetooth/Action.java:28-39 | `isEqualTo` and `BtPredicate.in` give the same outcome on every argument list, exceptions included |
| Framing.IsDelimiter | rxbluetooth/src/main/java/com/github/ivbaranov/rxbluetooth/BluetoothConnection.java:147-152 | a byte is a delimiter when it equals one of the configured `int`s |
| Framing.Emit | rxbluetooth/src/main/java/com/github/ivbaranov/rxbluetooth/BluetoothConnection.java:164-179 | `emit()` on the framer's state (characterised by `NextKeepsBytes`, and implemented by `StringFramer.Emit`) |
| Framing.Next | rxbluetooth/src/main/java/com/github/ivbaranov/rxbluetooth/BluetoothConnection.java:145-162 | `onNext(b)` on the framer's state (characterised by `NextKeepsBytes`, and implemented by `StringFramer.OnNext`) |
| Framing.Flush | rxbluetooth/src/main/java/com/github/ivbaranov/rxbluetooth/BluetoothConnection.java:131-143 | what `onComplete`/`onError` do before forwarding: emit a non-empty buffer |
| Framing.Feed | rxbluetooth/src/main/java/com/github/ivbaranov/rxbluetooth/BluetoothConnection.java:145-162 | the framer state after every byte of an input (characterised by `FeedKeepsBytes`, `FeedAppend`) |
| Framing.Frame | rxbluetooth/src/main/java/com/github/ivbaranov/rxbluetooth/BluetoothConnection.java:131-179 | the tokens for an input followed by completion (characterised by `FrameKeepsBytes`, `FrameTokenBound`) |
| Framing.StringFramer.constructor | rxbluetooth/src/main/java/com/github/ivbaranov/rxbluetooth/BluetoothConnection.java:123-125 | a new framer has empty lists, has emitted nothing and is not terminated |
| Framing.StringFramer.OnNext | rxbluetooth/src/main/java/com/github/ivbaranov/rxbluetooth/BluetoothConnection.java:145-162 | a non-delimiter is appended to the buffer; a delimiter is appended to the received list and emits unless that list now equals the configured delimiters (`Framing.Next`) |
| Framing.StringFramer.Emit | rxbluetooth/src/main/java/com/github/ivbaranov/rxbluetooth/BluetoothConnection.java:164-179 | an empty buffer emits "" and keeps the received list; a non-empty one emits exactly its bytes in order and clears both lists |
| Framing.StringFramer.DelimitersMatched | rxbluetooth/src/main/java/com/github/ivbaranov/rxbluetooth/BluetoothConnection.java:182-189 | true exactly when the received list equals the configured delimiters |
| Framing.StringFramer.OnComplete | rxbluetooth/src/main/java/com/github/ivbaranov/rxbluetooth/BluetoothConnection.java:131-136 | emits the buffer only if it is not empty, then forwards completion |
| Framing.StringFramer.OnError | rxbluetooth/src/main/java/com/github/ivbaranov/rxbluetooth/BluetoothConnection.java:138-143 | emits the buffer only if it is not empty, then forwards the error |
| Framing.FrameAll | rxbluetooth/src/main/java/com/github/ivbaranov/rxbluetooth/BluetoothConnection.java:120-193 | a framer driven over an input emits exactly the reference tokens `Frame` (or `Feed` when the subscriber cancels) |
| FramerProperties.NextKeepsBytes | rxbluetooth/src/main/java/com/github/ivbaranov/rxbluetooth/BluetoothConnection.java:145-179 | one byte keeps "emitted bytes + buffer = non-delimiter bytes seen", emits at most one token and only for a delimiter, and never buffers a delimiter |
| FramerProperties.FeedKeepsBytes | rxbluetooth/src/main/java/com/github/ivbaranov/rxbluetooth/BluetoothConnection.java:145-179 | after any input, the tokens followed by the buffer are exactly the input's non-delimiter bytes in order, and there are at most as many tokens as delimiter bytes |
| FramerProperties.FrameKeepsBytes | rxbluetooth/src/main/java/com/github/ivbaranov/rxbluetooth/BluetoothConnection.java:131-179 | the tokens laid end to end are exactly the non-delimiter bytes of the input, and no token holds a delimiter |
| FramerProperties.FrameTokenBound | rxbluetooth/src/main/java/com/github/ivbaranov/rxbluetooth/BluetoothConnection.java:131-179 | at most one token per delimiter byte plus one for the final flush |
| FramerProperties.FrameNoBytes | rxbluetooth/src/main/java/com/github/ivbaranov/rxbluetooth/BluetoothConnection.java:131-143 | an input with no bytes produces no tokens |
| FramerProperties.FeedAppend | rxbluetooth/src/main/java/com/github/ivbaranov/rxbluetooth/BluetoothConnection.java:121-162 | the framer carries its whole state from one byte to the next: feeding two inputs in turn is feeding their concatenation |
| FramerProperties.FeedDelimiterFree | rxbluetooth/src/main/java/com/github/ivbaranov/rxbluetooth/BluetoothConnection.java:160-161 | bytes that are not delimiters are only appended to the buffer |
| FramerProperties.NoByteMatches | rxbluetooth/src/main/java/com/github/ivbaranov/rxbluetooth/BluetoothConnection.java:147-152 | a delimiter outside -128..127 matches no byte |
| FramerProperties.UnmatchableDelimiters | rxbluetooth/src/main/java/com/github/ivbaranov/rxbluetooth/BluetoothConnection.java:147-152 | delimiters outside -128..127 never match a byte, so the whole input is one token at the end of the stream |
| FramerProperties.DefaultCrLfEmitsOneEmptyToken | rxbluetooth/src/main/java/com/github/ivbaranov/rxbluetooth/BluetoothConnection.java:145-179 | with the default delimiters, "\r\n" with nothing buffered or received emits exactly one "" and leaves the received list full |
| FramerProperties.DefaultCrLfAfterEmptyToken | rxbluetooth/src/main/java/com/github/ivbaranov/rxbluetooth/BluetoothConnection.java:145-179 | with the default delimiters, nothing buffered and the received list already full, "\r\n" emits two empty tokens and only lengthens the list |
| FramerProperties.DefaultTerminatedLine | rxbluetooth/src/main/java/com/github/ivbaranov/rxbluetooth/BluetoothConnection.java:131-179 | a non-empty line without delimiters followed by '\r' gives exactly that line, and the end of the stream adds nothing |
| FramerProperties.DefaultCrLfAfterText | rxbluetooth/src/main/java/com/github/ivbaranov/rxbluetooth/BluetoothConnection.java:145-179 | such a line followed by "\r\n" gives the line and then "" |
| FramerProperties.SingleDelimiterMergesLines | rxbluetooth/src/main/java/com/github/ivbaranov/rxbluetooth/BluetoothConnection.java:155-158 | with any single delimiter, two lines each ended by it come out as one token, their concatenation |
| FramerProperties.SingleDelimiterEmptyLines | rxbluetooth/src/main/java/com/github/ivbaranov/rxbluetooth/BluetoothConnection.java:155-176 | with any single delimiter, three delimiters in a row give two empty tokens |
| MembershipFraming.SplitFeed | rxbluetooth/src/main/java/com/github/ivbaranov/rxbluetooth/BluetoothConnection.java:114-120 | the tokens ended so far, the delimiter that ended each, and the open token (characterised by `SplitRejoins`, `SplitClean`) |
| MembershipFraming.Split | rxbluetooth/src/main/java/com/github/ivbaranov/rxbluetooth/BluetoothConnection.java:114-120 | the tokens of an input followed by the end of the stream, one per delimiter byte plus a non-empty tail (characterised by `SplitCount`) |
| MembershipFraming.SplitRejoins | rxbluetooth/src/main/java/com/github/ivbaranov/rxbluetooth/BluetoothConnection.java:114-120 | one ended token per delimiter byte, and each token with its delimiter, then the open tail, gives back the input exactly |
| MembershipFraming.SplitClean | rxbluetooth/src/main/java/com/github/ivbaranov/rxbluetooth/BluetoothConnection.java:114-120 | every terminator is a delimiter and no token, open or ended, holds one |
| MembershipFraming.SplitFeedDelimiterFree | rxbluetooth/src/main/java/com/github/ivbaranov/rxbluetooth/BluetoothConnection.java:114-120 | bytes that are not delimiters only extend the open token |
| MembershipFraming.SplitReassembles | rxbluetooth/src/main/java/com/github/ivbaranov/rxbluetooth/BluetoothConnection.java:114-120 | one token per delimiter byte; each token plus the delimiter that ended it, then the open tail, gives back the input exactly; no token holds a delimiter |
| MembershipFraming.SplitCount | rxbluetooth/src/main/java/com/github/ivbaranov/rxbluetooth/BluetoothConnection.java:114-120 | the number of tokens is the number of delimiter bytes, plus one for a non-empty tail |
| MembershipFraming.SplitNoBytes | rxbluetooth/src/main/java/com/github/ivbaranov/rxbluetooth/BluetoothConnection.java:131-143 | an input with no bytes produces no tokens |
| MembershipFraming.SplitSingleDelimiter | rxbluetooth/src/main/java/com/github/ivbaranov/rxbluetooth/BluetoothConnection.java:114-120 | with any single delimiter, two lines each ended by it come out as those two lines |
| Connections.CloseQuietly | rxbluetooth/src/main/java/com/github/ivbaranov/rxbluetooth/Utils.java:11-19 | a non-null closeable ends up released; null is ignored |
| Connections.Valid | rxbluetooth/src/main/java/com/github/ivbaranov/rxbluetooth/BluetoothConnection.java:55-74 | the invariant the lifecycle keeps: connected means both streams are held and open; disconnected means the socket and every stream obtained are closed (established by `OpenedOutcomes` and `ClosedIdempotent`, kept by `SendOutcomes` and `ReadLoopFinalState`) |
| Connections.Closed | rxbluetooth/src/main/java/com/github/ivbaranov/rxbluetooth/BluetoothConnection.java:244-249 | `closeConnection()` on the lifecycle state (characterised by `ClosedIdempotent`) |
| Connections.Opened | rxbluetooth/src/main/java/com/github/ivbaranov/rxbluetooth/BluetoothConnection.java:55-74 | the state the constructor leaves (characterised by `OpenedOutcomes`) |
| Connections.SendStep | rxbluetooth/src/main/java/com/github/ivbaranov/rxbluetooth/BluetoothConnection.java:211-228 | `send(bytes)` on the lifecycle state (characterised by `SendOutcomes`) |
| Connections.ReadNext | rxbluetooth/src/main/java/com/github/ivbaranov/rxbluetooth/BluetoothConnection.java:86-95 | the state after one pass of the read loop's body |
| Connections.ReadLoop | rxbluetooth/src/main/java/com/github/ivbaranov/rxbluetooth/BluetoothConnection.java:85-96 | the state and the signals of one subscription (characterised by `ReadLoopSignals`) |
| Connections.OpenedOutcomes | rxbluetooth/src/main/java/com/github/ivbaranov/rxbluetooth/BluetoothConnection.java:55-74 | construction connects exactly when both streams are obtained; otherwise the socket and any obtained stream are released, and the invariant holds either way |
| Connections.ClosedIdempotent | rxbluetooth/src/main/java/com/github/ivbaranov/rxbluetooth/BluetoothConnection.java:244-249 | closing disconnects and releases every held resource, keeps what was delivered, and a second close changes nothing |
| Connections.SendOutcomes | rxbluetooth/src/main/java/com/github/ivbaranov/rxbluetooth/BluetoothConnection.java:211-228 | returns true exactly when connected and the write succeeds; disconnected: nothing changes; success: the bytes are delivered and the connection stays up; failure: closed, nothing delivered; the invariant is kept |
| Connections.DisconnectedIsFinal | rxbluetooth/src/main/java/com/github/ivbaranov/rxbluetooth/BluetoothConnection.java:211-212 | a disconnected connection refuses every send and stays disconnected (collects the disconnected case of `SendOutcomes` and `ClosedIdempotent`) |
| Connections.ReadLoopStep | rxbluetooth/src/main/java/com/github/ivbaranov/rxbluetooth/BluetoothConnection.java:85-96 | one pass of the read loop: a failure closes the connection and ends with the error; a byte is passed on and the loop continues, after closing again if disconnected |
| Connections.ReadLoopSignalOrder | rxbluetooth/src/main/java/com/github/ivbaranov/rxbluetooth/BluetoothConnection.java:85-96 | the subscriber gets the bytes read up to the first failure, then one error, then nothing |
| Connections.ReadLoopFinalState | rxbluetooth/src/main/java/com/github/ivbaranov/rxbluetooth/BluetoothConnection.java:85-96 | the connection stays up exactly when it was up and no read failed; nothing is written; the invariant is kept |
| Connections.ReadLoopSignals | rxbluetooth/src/main/java/com/github/ivbaranov/rxbluetooth/BluetoothConnection.java:85-96 | the subscriber gets the bytes read up to the first failure, then one error, then nothing; the connection stays up exactly when it was up and no read failed; nothing is written; the invariant is kept (collects `ReadLoopSignalOrder` and `ReadLoopFinalState`) |
| Connections.ReadFailureThenSendFails | rxbluetooth/src/main/java/com/github/ivbaranov/rxbluetooth/BluetoothConnection.java:85-96 | after a read failure, every `send` returns false and writes nothing |
| Connections.BluetoothConnection.constructor | rxbluetooth/src/main/java/com/github/ivbaranov/rxbluetooth/BluetoothConnection.java:55-74 | the new connection is in the state `Opened` describes: connected with both streams exactly when both were obtained, closed again otherwise |
| Connections.BluetoothConnection.ObserveByteStream | rxbluetooth/src/main/java/com/github/ivbaranov/rxbluetooth/BluetoothConnection.java:81-102 | the byte stream is created on the first call, and every later call returns the same object |
| Connections.BluetoothConnection.ObserveStringStream | rxbluetooth/src/main/java/com/github/ivbaranov/rxbluetooth/BluetoothConnection.java:120-193 | the connection ends in the read loop's state, and the subscriber gets the framer's tokens for the bytes read, with an error exactly when a read failed; the streams are the same objects, and the shared byte stream exists afterwards (the one created earlier, if any) and reads from this connection |
| Connections.BluetoothConnection.ReadOnce | rxbluetooth/src/main/java/com/github/ivbaranov/rxbluetooth/BluetoothConnection.java:86-95 | one pass of the loop body: the byte or the error is signalled, and the new state is `ReadNext` |
| Connections.BluetoothConnection.Send | rxbluetooth/src/main/java/com/github/ivbaranov/rxbluetooth/BluetoothConnection.java:211-228 | the new state and the result are those of `SendStep` |
| Connections.BluetoothConnection.SendByte | rxbluetooth/src/main/java/com/github/ivbaranov/rxbluetooth/BluetoothConnection.java:201-203 | sending one byte is sending the one-byte array |
| Connections.BluetoothConnection.CloseConnection | rxbluetooth/src/main/java/com/github/ivbaranov/rxbluetooth/BluetoothConnection.java:244-249 | clears `connected` and releases the input stream, the output stream and the socket (`Closed`) |
| Connections.ByteStream.Subscribe | rxbluetooth/src/main/java/com/github/ivbaranov/rxbluetooth/BluetoothConnection.java:84-97 | the signals and the connection's new state are those of the reference `ReadLoop` |
| Connections.NewConnection | rxbluetooth/src/main/java/com/github/ivbaranov/rxbluetooth/BluetoothConnection.java:55-74 | a null socket is rejected with nothing done; a refused stream leaves the socket released and fails; otherwise a fresh connection is returned, connected and valid, holding two fresh streams and no byte stream yet, with the socket untouched |

## Left out

- RxJava machinery is not modelled: `Flowable.create`, `share()`, `lift`,
  back-pressure buffering, schedulers, and fan-out to several subscribers.
  A subscription is one run of the read loop over a script of read
  results. The end of the script stands for the subscriber cancelling.
- The blocking `InputStream.read()` is not modelled. In particular, the
  end-of-stream value -1 is cast to the byte -1. Each read is given as a
  byte or a failure.
- After an error the loop ends because RxJava's emitter reports itself
  cancelled once `onError` has run. The model ends the loop there too.
- Charset encoding and decoding are not modelled: `new String(bytes)` and
  `send(String)`, which calls `text.getBytes()`. Tokens and sent data are
  byte sequences, and `send(String)` is only a delegation to `send(byte[])`.
- A failed write may have delivered part of the data. The model records
  nothing for it.
- Concurrency is not modelled: a `send` or `closeConnection` racing with the
  read loop. Operations are taken one at a time.
- Connections.BluetoothConnection.constructor: it does not require the
  socket to be open, and a socket that is already closed is not treated
  specially. Valid therefore says nothing about the socket of a connected
  link.
- The `toString` of the event classes is not modelled, because it is only
  formatting.
- Logging (`Log.e`) is not modelled.
- The exception classes only carry constant messages and are not modelled.
- `RxBluetooth.java` is not part of this model. It holds broadcast-receiver
  plumbing, adapter and permission calls, profile proxies and socket
  connect/accept.
- `Utils.createRfcommSocket` is not part of this model, because it is
  reflection over a hidden Android API.
- The example application is not part of this model.
- JavaLang.StringHash: works on Dafny characters, which are Unicode scalar
  values. Java hashes UTF-16 code units, so the two differ for characters
  outside the Basic Multilingual Plane, which take two code units in Java.
- A null varargs array is not modelled: `DiscoveryState.isEqualTo`,
  `isNotEqualTo`, `BtPredicate.in` and `Action.isEqualTo` take a sequence.
  In Java, such an array makes the returned function throw when it loops
  over it. Null elements are modelled.
- Null arguments to `send` and `observeStringStream` are not modelled: the
  bytes sent are a sequence and the delimiters a sequence, so neither can be
  null. In Java:
  - `send((byte[]) null)` on a connected link throws a
    `NullPointerException` from `outputStream.write`
    (BluetoothConnection.java:215). `catch (IOException)` does not catch
    it, and the `finally` block leaves the link connected.
  - `send((String) null)` throws at `text.getBytes()`
    (BluetoothConnection.java:237) even when disconnected, instead of
    returning false.
  - A null `delimiter` array makes the framer's `for (int d : delimiter)`
    (BluetoothConnection.java:147) throw on the first byte.
- The foreign `equals`/`hashCode` of devices, profiles and enum
  constants are parameters. Contract properties such as reflexivity and
  hash consistency are stated as preconditions where a lemma needs them.

## Findings

| source | as written | input that shows it | evidently intended | confidence | as-written member | corrected member |
|---|---|---|---|---|---|---|
| rxbluetooth/src/main/java/com/github/ivbaranov/rxbluetooth/DiscoveryState.java:34-36 | the loop overwrites the flag on every pass, so only the last listed state decides | `isEqualTo(DISCOVERY_STARTED, DISCOVERY_FINISHED).call(DISCOVERY_STARTED)` returns false | true when the state is any of the listed states (and `isNotEqualTo` true when it is none of them) | high, not executed | DiscoveryStates.LastIsIsNotMembership | DiscoveryStates.IsEqualToAny |
| rxbluetooth/src/main/java/com/github/ivbaranov/rxbluetooth/BluetoothConnection.java:155-158 | with one delimiter, a delimiter after a non-empty token fills `receivedDelimiters` and is swallowed | `observeStringStream('\n')` over "ab\ncd\n" then completion gives the single token "abcd" | each delimiter ends a token: "ab" and "cd" | high, not executed | FramerProperties.SingleDelimiterMergesLines | MembershipFraming.SplitSingleDelimiter |
| rxbluetooth/src/main/java/com/github/ivbaranov/rxbluetooth/events/AclEvent.java:52 | a null `mAction` skips the action comparison, breaking the `equals`/`hashCode` contract | `new AclEvent(null, null).equals(new AclEvent("x", null))` is true, yet the hash codes are 0 and 3720 | compare actions with the same null-safe idiom as the device | high, not executed | AclEvents.NullActionCounterexample | AclEvents.EqualsNullSafeEqualHash |
