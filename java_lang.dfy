/** The few pieces of the Java language the event classes and the connection
    rely on: nullable references, 32-bit `int` arithmetic with wrap-around,
    and the null-safe field comparison and hashing idiom that every
    hand-written `equals`/`hashCode` of the library repeats. */
module JavaLang {

  /** A nullable reference: `Null` stands for Java's `null`. */
  datatype Nullable<+T> = Null | Ref(get: T)

  /** What a call produced: a value, or the `NullPointerException` a
      method call on a null reference throws. */
  datatype Outcome<+T> = Returns(value: T) | ThrowsNullPointer

  /** Java's `int`. */
  newtype int32 = x: int | -0x8000_0000 <= x < 0x8000_0000

  const TwoTo32: int := 0x1_0000_0000

  /** Reduces an unbounded integer to the `int` Java's two's-complement
      arithmetic would hold: the one value of `int32` congruent to `x`
      modulo 2^32. */
  function Wrap(x: int): (r: int32)
    ensures (x - r as int) % TwoTo32 == 0
    ensures -0x8000_0000 <= x < 0x8000_0000 ==> r as int == x
  {
    var m := x % TwoTo32;
    if m < 0x8000_0000 then m as int32 else (m - TwoTo32) as int32
  }

  /** Two integers congruent modulo 2^32 wrap to the same `int`. */
  lemma WrapCongruent(x: int, y: int, k: int)
    requires x == y + k * TwoTo32
    ensures Wrap(x) == Wrap(y)
  {
    var rx, ry := Wrap(x), Wrap(y);
    // Both are congruent to y, and two values of int32 that are congruent
    // modulo 2^32 lie closer together than 2^32, so they are equal.
    var qx := (x - rx as int) / TwoTo32;
    var qy := (y - ry as int) / TwoTo32;
    assert rx as int == x - qx * TwoTo32;
    assert ry as int == y - qy * TwoTo32;
    assert rx as int - ry as int == (k - qx + qy) * TwoTo32;
  }

  /** One step of the `result = 31 * result + x` accumulation that every
      `hashCode` here performs, in Java `int` arithmetic. */
  function Hash31(acc: int32, x: int32): int32 {
    Wrap(31 * acc as int + x as int)
  }

  /** Folding two steps of `Hash31` wraps the exact polynomial once: the
      intermediate wrap-around does not change the final hash. */
  lemma {:induction false} Hash31Twice(a: int32, b: int32, c: int32)
    ensures Hash31(Hash31(a, b), c) == Wrap(961 * a as int + 31 * b as int + c as int)
  {
    var inner := 31 * a as int + b as int;
    var w := Wrap(inner);
    var q := (inner - w as int) / TwoTo32;
    assert w as int == inner - q * TwoTo32;
    WrapCongruent(961 * a as int + 31 * b as int + c as int, 31 * w as int + c as int, 31 * q);
  }

  /** `String.hashCode()`: `s[0]*31^(n-1) + s[1]*31^(n-2) + ... + s[n-1]`
      in Java `int` arithmetic, accumulated one character at a time. */
  function StringHash(s: string): int32
    decreases |s|
  {
    if s == [] then 0 else Wrap(31 * StringHash(s[..|s| - 1]) as int + s[|s| - 1] as int)
  }

  /** The exact polynomial `String.hashCode` documents, without
      wrap-around. */
  function StringPolynomial(s: string): int
    decreases |s|
  {
    if s == [] then 0 else 31 * StringPolynomial(s[..|s| - 1]) + s[|s| - 1] as int
  }

  /** Wrapping at every step gives the documented polynomial wrapped once. */
  lemma {:induction false} StringHashIsPolynomial(s: string)
    ensures StringHash(s) == Wrap(StringPolynomial(s))
    decreases |s|
  {
    if s != [] {
      var prefix, c := s[..|s| - 1], s[|s| - 1] as int;
      StringHashIsPolynomial(prefix);
      var exact := StringPolynomial(prefix);
      var w := StringHash(prefix);
      var q := (exact - w as int) / TwoTo32;
      assert w as int == exact - q * TwoTo32;
      WrapCongruent(31 * exact + c, 31 * w as int + c, 31 * q);
    }
  }

  /** A one-character string hashes to its character code: "x" hashes to
      120. */
  lemma StringHashOneChar(c: char)
    ensures StringHash([c]) == c as int as int32
    ensures StringHash("x") == 120
  {
    assert [c][..0] == [];
    assert "x"[..0] == [];
  }

  /** The `x != null ? x.equals(y) : y == null` idiom, with the foreign
      `equals` of the referenced class given as `eq`. A non-null reference
      never equals `null`, as `Object.equals` requires. */
  function NullSafeEquals<T>(x: Nullable<T>, y: Nullable<T>, eq: (T, T) -> bool): bool {
    match x
    case Null => y.Null?
    case Ref(a) => y.Ref? && eq(a, y.get)
  }

  /** The `x != null ? x.hashCode() : 0` idiom, with the foreign `hashCode`
      given as `hash`. */
  function NullSafeHash<T>(x: Nullable<T>, hash: T -> int32): int32 {
    match x
    case Null => 0
    case Ref(a) => hash(a)
  }

  /** The null-safe comparison is an equivalence whenever the foreign
      `equals` is one: reflexive (null equals null), symmetric and
      transitive, and `null` is equal to `null` only. */
  lemma NullSafeEqualsReflexive<T>(x: Nullable<T>, eq: (T, T) -> bool)
    requires forall a :: eq(a, a)
    ensures NullSafeEquals(x, x, eq)
    ensures NullSafeEquals(x, Null, eq) <==> x.Null?
  {
  }

  lemma NullSafeEqualsSymmetric<T>(x: Nullable<T>, y: Nullable<T>, eq: (T, T) -> bool)
    requires forall a, b :: eq(a, b) ==> eq(b, a)
    ensures NullSafeEquals(x, y, eq) <==> NullSafeEquals(y, x, eq)
  {
  }

  lemma NullSafeEqualsTransitive<T>(x: Nullable<T>, y: Nullable<T>, z: Nullable<T>, eq: (T, T) -> bool)
    requires forall a, b, c :: eq(a, b) && eq(b, c) ==> eq(a, c)
    requires NullSafeEquals(x, y, eq) && NullSafeEquals(y, z, eq)
    ensures NullSafeEquals(x, z, eq)
  {
  }

  /** The `equals` contract that `hash` must keep with `eq`. */
  ghost predicate HashConsistent<T(!new)>(eq: (T, T) -> bool, hash: T -> int32) {
    forall a, b :: eq(a, b) ==> hash(a) == hash(b)
  }

  /** When the foreign `hashCode` keeps the contract with the foreign
      `equals`, the null-safe idioms keep it too. */
  lemma NullSafeHashConsistent<T(!new)>(x: Nullable<T>, y: Nullable<T>, eq: (T, T) -> bool, hash: T -> int32)
    requires HashConsistent(eq, hash)
    requires NullSafeEquals(x, y, eq)
    ensures NullSafeHash(x, hash) == NullSafeHash(y, hash)
  {
  }
}
