/** ConvertorKey: the lookup key of the convertor registry, an OpenFlow
    version and a target class. Both are required, two keys are equal when
    they are of the same run-time class and agree on both fields, and the
    hash combines the two fields' hashes in Java `int` arithmetic.

    Classes are values of `ClassRef` (a class is equal only to itself).
    `Uint8.hashCode` and `Class.hashCode` are not part of this model: they are
    the parameters `versionHash` and `classHash`. */
module ConvertorKeys {
  import opened Wrappers
  import opened Bytes

  /** A Java class, named by its binary name. */
  type ClassRef = string

  /** `ConvertorKey`, as an object whose run-time class is `runtimeClass`
      (the class itself or a subclass). */
  datatype ConvertorKey = ConvertorKey(runtimeClass: ClassRef, version: int, targetClazz: ClassRef)

  /** What `equals` may be handed: a convertor key or an object of another
      class. */
  datatype JavaObject = KeyObject(key: ConvertorKey) | OtherObject(objectClass: ClassRef)

  /** `getClass()`. */
  function GetClass(o: JavaObject): ClassRef {
    match o
    case KeyObject(k) => k.runtimeClass
    case OtherObject(c) => c
  }

  /** The constructor: `requireNonNull` of the version and then of the target
      class. A version, when present, is a `Uint8`. */
  function New(runtimeClass: ClassRef, version: Option<int>, targetClazz: Option<ClassRef>): (r: Result<ConvertorKey>)
    requires version.Some? ==> IsU8(version.value)
    ensures r.Err? <==> version.None? || targetClazz.None?
    ensures r.Err? ==> r.error == NullPointer
    ensures r.Ok? ==> r.value == ConvertorKey(runtimeClass, version.value, targetClazz.value)
  {
    if version.None? then Err(NullPointer)
    else if targetClazz.None? then Err(NullPointer)
    else Ok(ConvertorKey(runtimeClass, version.value, targetClazz.value))
  }

  /** Two keys that agree on both fields. */
  predicate SameFields(a: ConvertorKey, b: ConvertorKey) {
    a.version == b.version && a.targetClazz == b.targetClazz
  }

  /** `equals`: the identity test, the null test, the run-time class test and
      the comparison of both fields. Reference identity is modelled by equality
      of values, which it implies. */
  function Equals(key: ConvertorKey, obj: Option<JavaObject>): (r: bool)
    ensures r <==> obj.Some? && obj.value.KeyObject? && obj.value.key.runtimeClass == key.runtimeClass
                   && SameFields(key, obj.value.key)
  {
    if obj == Some(KeyObject(key)) then true
    else if obj.None? then false
    else if key.runtimeClass != GetClass(obj.value) then false
    else
      match obj.value
      case KeyObject(other) => key.version == other.version && key.targetClazz == other.targetClazz
      case OtherObject(_) => false
  }

  /** Java `int` arithmetic: the value modulo 2^32, as a signed 32-bit value. */
  function IntWrap(x: int): (w: int)
    ensures -0x8000_0000 <= w < 0x8000_0000
    ensures (w - x) % 0x1_0000_0000 == 0
  {
    (x + 0x8000_0000) % 0x1_0000_0000 - 0x8000_0000
  }

  /** `hashCode`: `31 * version.hashCode() + targetClazz.hashCode()`. */
  function HashCode(k: ConvertorKey, versionHash: int -> int, classHash: ClassRef -> int): (h: int)
    ensures -0x8000_0000 <= h < 0x8000_0000
    ensures (h - (31 * versionHash(k.version) + classHash(k.targetClazz))) % 0x1_0000_0000 == 0
  {
    IntWrap(31 * versionHash(k.version) + classHash(k.targetClazz))
  }

  /** `equals(null)` is false and `equals` of the key itself is true. */
  lemma EqualsNullAndSelf(k: ConvertorKey)
    ensures !Equals(k, None)
    ensures Equals(k, Some(KeyObject(k)))
  {
  }

  /** An object of another class is never equal to a key, nor is a key of
      another run-time class, whatever its fields. */
  lemma EqualsNeedsSameClass(k: ConvertorKey, o: JavaObject)
    requires GetClass(o) != k.runtimeClass
    ensures !Equals(k, Some(o))
  {
  }

  /** `equals` is symmetric. */
  lemma EqualsSymmetric(a: ConvertorKey, b: ConvertorKey)
    ensures Equals(a, Some(KeyObject(b))) <==> Equals(b, Some(KeyObject(a)))
  {
  }

  /** `equals` is transitive. */
  lemma EqualsTransitive(a: ConvertorKey, b: ConvertorKey, c: ConvertorKey)
    requires Equals(a, Some(KeyObject(b))) && Equals(b, Some(KeyObject(c)))
    ensures Equals(a, Some(KeyObject(c)))
  {
  }

  /** Equal keys have equal hashes, for any field hashes. */
  lemma EqualKeysEqualHashes(a: ConvertorKey, b: ConvertorKey, versionHash: int -> int, classHash: ClassRef -> int)
    requires Equals(a, Some(KeyObject(b)))
    ensures HashCode(a, versionHash, classHash) == HashCode(b, versionHash, classHash)
  {
  }

  /** Keys built from the same class, version and target class are equal. */
  lemma NewKeysEqual(runtimeClass: ClassRef, version: int, targetClazz: ClassRef)
    requires IsU8(version)
    ensures var a := New(runtimeClass, Some(version), Some(targetClazz));
      a.Ok? && Equals(a.value, Some(KeyObject(New(runtimeClass, Some(version), Some(targetClazz)).value)))
  {
  }
}
