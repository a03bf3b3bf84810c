/** The Person entity: six nullable fields, and an equality (with its hash code)
    that ignores the store-assigned surrogate key `id`. */
module Persons {
  import opened Wrappers

  /** A Java String reference: None is null. */
  type NullableString = Option<string>

  /** The all-arguments constructor: every field is given explicitly. The builder
      produces the same value, with every field it was not told about left null. */
  datatype Person = Person(
    id: Option<int>,
    firstName: NullableString,
    lastName: NullableString,
    nationalIdentificationNumber: NullableString,
    birthDate: NullableString,
    email: NullableString)

  /** Generated value equality: field by field, null-safe, leaving out `id`. */
  predicate Equals(a: Person, b: Person)
  {
    && a.firstName == b.firstName
    && a.lastName == b.lastName
    && a.nationalIdentificationNumber == b.nationalIdentificationNumber
    && a.birthDate == b.birthDate
    && a.email == b.email
  }

  lemma AllArgsConstructorSetsFields(id: Option<int>, firstName: NullableString, lastName: NullableString,
                                     nationalIdentificationNumber: NullableString, birthDate: NullableString,
                                     email: NullableString)
    ensures var p := Person(id, firstName, lastName, nationalIdentificationNumber, birthDate, email);
      && p.id == id && p.firstName == firstName && p.lastName == lastName
      && p.nationalIdentificationNumber == nationalIdentificationNumber
      && p.birthDate == birthDate && p.email == email
  {
  }

  /** Two persons are equal exactly when they are the same record once their keys are erased. */
  lemma EqualsIffEqualWithoutId(a: Person, b: Person)
    ensures Equals(a, b) <==> a.(id := None) == b.(id := None)
  {
  }

  /** Assigning or changing the key never changes what a person equals. */
  lemma EqualsIgnoresId(p: Person, q: Person, id: Option<int>)
    ensures Equals(p.(id := id), q) <==> Equals(p, q)
    ensures Equals(p.(id := id), p)
  {
  }

  /** Equality is reflexive, symmetric and transitive. */
  lemma EqualsIsEquivalence(a: Person, b: Person, c: Person)
    ensures Equals(a, a)
    ensures Equals(a, b) ==> Equals(b, a)
    ensures Equals(a, b) && Equals(b, c) ==> Equals(a, c)
  {
  }

  // ---------------------------------------------------------------------------
  // The generated hashCode: result = result * 59 + (field == null ? 43 : field.hashCode())
  // over the five fields in declaration order, starting from 1, in 32-bit arithmetic.

  const HashPrime: int := 59
  const NullFieldHash: int := 43
  const TwoTo32: int := 0x1_0000_0000

  /** Java `int` wrap-around: the 32-bit two's-complement value congruent to x. */
  function ToInt32(x: int): (r: int)
    ensures -0x8000_0000 <= r < 0x8000_0000
    ensures (x - r) % TwoTo32 == 0
  {
    var m := x % TwoTo32;
    if m >= 0x8000_0000 then m - TwoTo32 else m
  }

  /** The UTF-16 code units of one character: one unit below U+10000, a surrogate pair above. */
  function CharUnits(c: char): (u: seq<int>)
    ensures 1 <= |u| <= 2
    ensures forall i :: 0 <= i < |u| ==> 0 <= u[i] < 0x1_0000
    ensures |u| == 1 <==> (c as int) < 0x1_0000
    ensures |u| == 1 ==> u[0] == c as int
    // a surrogate pair: a high surrogate, a low surrogate, and together they decode to c
    ensures |u| == 2 ==> && 0xD800 <= u[0] < 0xDC00 <= u[1] < 0xE000
                         && (u[0] - 0xD800) * 0x400 + (u[1] - 0xDC00) + 0x1_0000 == c as int
  {
    var v := c as int;
    if v < 0x1_0000 then [v]
    else [0xD800 + (v - 0x1_0000) / 0x400, 0xDC00 + (v - 0x1_0000) % 0x400]
  }

  /** The UTF-16 code units of a string, as a Java String stores them. */
  function Utf16Units(s: string): (u: seq<int>)
    ensures |s| <= |u| <= 2 * |s|
    ensures forall i :: 0 <= i < |u| ==> 0 <= u[i] < 0x1_0000
  {
    if s == [] then [] else CharUnits(s[0]) + Utf16Units(s[1..])
  }

  /** String.hashCode: h = 31 * h + unit for each unit in order, in 32-bit arithmetic. */
  function UnitsHash(u: seq<int>): (h: int)
    ensures -0x8000_0000 <= h < 0x8000_0000
  {
    if u == [] then 0 else ToInt32(31 * UnitsHash(u[..|u| - 1]) + u[|u| - 1])
  }

  function Pow31(n: nat): (r: int)
    ensures r >= 1
  {
    if n == 0 then 1 else 31 * Pow31(n - 1)
  }

  /** The textbook definition: s[0]*31^(n-1) + s[1]*31^(n-2) + ... + s[n-1], in exact arithmetic. */
  function Polynomial(u: seq<int>): int
  {
    if u == [] then 0 else u[0] * Pow31(|u| - 1) + Polynomial(u[1..])
  }

  lemma {:induction false} PolynomialAppend(u: seq<int>, x: int)
    ensures Polynomial(u + [x]) == 31 * Polynomial(u) + x
  {
    if u != [] {
      assert (u + [x])[1..] == u[1..] + [x];
      PolynomialAppend(u[1..], x);
      assert Pow31(|u|) == 31 * Pow31(|u| - 1);
      assert u[0] * Pow31(|u|) == 31 * (u[0] * Pow31(|u| - 1));
    }
  }

  lemma ToInt32Congruent(x: int, y: int, k: int)
    requires x - y == k * TwoTo32
    ensures ToInt32(x) == ToInt32(y)
  {
    assert x % TwoTo32 == y % TwoTo32;
  }

  /** The wrapped left fold equals the exact polynomial reduced to 32 bits. */
  lemma {:induction false} UnitsHashIsPolynomial(u: seq<int>)
    ensures UnitsHash(u) == ToInt32(Polynomial(u))
  {
    if u != [] {
      var init, last := u[..|u| - 1], u[|u| - 1];
      assert u == init + [last];
      UnitsHashIsPolynomial(init);
      PolynomialAppend(init, last);
      var p := Polynomial(init);
      var t := ToInt32(p);
      var q := (p - t) / TwoTo32;
      assert p - t == q * TwoTo32;
      ToInt32Congruent(31 * t + last, 31 * p + last, -31 * q);
    }
  }

  function FieldHash(s: NullableString): (h: int)
    ensures -0x8000_0000 <= h < 0x8000_0000
    ensures s.None? ==> h == NullFieldHash
  {
    match s
    case None => NullFieldHash
    case Some(v) => UnitsHash(Utf16Units(v))
  }

  /** One step of the generated hashCode: fold the next field into the running result. */
  function HashStep(result: int, field: NullableString): (h: int)
    ensures -0x8000_0000 <= h < 0x8000_0000
  {
    ToInt32(result * HashPrime + FieldHash(field))
  }

  function HashCode(p: Person): (h: int)
    ensures -0x8000_0000 <= h < 0x8000_0000
  {
    var h1 := HashStep(1, p.firstName);
    var h2 := HashStep(h1, p.lastName);
    var h3 := HashStep(h2, p.nationalIdentificationNumber);
    var h4 := HashStep(h3, p.birthDate);
    HashStep(h4, p.email)
  }

  /** The hashCode contract: equal persons have equal hash codes, so the key plays no part. */
  lemma EqualsImpliesEqualHashCode(a: Person, b: Person)
    requires Equals(a, b)
    ensures HashCode(a) == HashCode(b)
    ensures HashCode(a.(id := None)) == HashCode(b)
  {
  }
}
