// AdapterKey: an immutable (type token, role) pair used to key adapters.

module AdapterKeys {
  import opened Wrappers
  import opened JavaInts

  /** A Guava TypeToken; equality is TypeToken.equals. */
  type TypeToken(==)

  /** A java.lang.Class object. */
  type JavaClass(==)

  /** The role given to keys created without one. */
  const DEFAULT_ROLE: string := "default"

  /** An adapter key. The factories never build one with a null key or role. */
  datatype AdapterKey = AdapterKey(key: TypeToken, role: string)

  /** An argument of equals(Object): another adapter key or an object of some other class. */
  datatype JavaObject = KeyObject(k: AdapterKey) | OtherObject

  /** get(TypeToken, String): rejects a null key, then a null role. */
  function GetForToken(key: Option<TypeToken>, role: Option<string>): (r: Result<AdapterKey>)
    ensures key.None? ==> r == Failure(NullPointer)
    ensures key.Some? && role.None? ==> r == Failure(NullPointer)
    ensures r.Success? <==> key.Some? && role.Some?
    ensures r.Success? ==> r.value.key == key.value && r.value.role == role.value
  {
    if key.None? then Failure(NullPointer)
    else if role.None? then Failure(NullPointer)
    else Success(AdapterKey(key.value, role.value))
  }

  /** get(Class, String): the same checks; the key is converted with TypeToken.of. */
  function GetForClass(key: Option<JavaClass>, role: Option<string>, tokenOf: JavaClass -> TypeToken): (r: Result<AdapterKey>)
    ensures r.Success? <==> key.Some? && role.Some?
    ensures r.Failure? ==> r.error == NullPointer
    ensures r.Success? ==> r.value == AdapterKey(tokenOf(key.value), role.value)
  {
    if key.None? then Failure(NullPointer)
    else if role.None? then Failure(NullPointer)
    else Success(AdapterKey(tokenOf(key.value), role.value))
  }

  /** get(TypeToken): the default role. */
  function GetDefaultForToken(key: Option<TypeToken>): (r: Result<AdapterKey>)
    ensures r.Success? <==> key.Some?
    ensures r.Success? ==> r.value.key == key.value && r.value.role == "default"
  {
    GetForToken(key, Some(DEFAULT_ROLE))
  }

  /**
   * get(Class): the default role. TypeToken.of(null) throws a
   * NullPointerException before the factory's own check is reached.
   */
  function GetDefaultForClass(key: Option<JavaClass>, tokenOf: JavaClass -> TypeToken): (r: Result<AdapterKey>)
    ensures r.Success? <==> key.Some?
    ensures r.Failure? ==> r.error == NullPointer
    ensures r.Success? ==> r.value == AdapterKey(tokenOf(key.value), "default")
  {
    if key.None? then Failure(NullPointer)
    else GetForToken(Some(tokenOf(key.value)), Some(DEFAULT_ROLE))
  }

  /** getKey(). */
  function GetKey(k: AdapterKey): (r: TypeToken)
    ensures GetForToken(Some(r), Some(k.role)) == Success(k)
  {
    k.key
  }

  /** getRole(). */
  function GetRole(k: AdapterKey): (r: string)
    ensures GetForToken(Some(k.key), Some(r)) == Success(k)
  {
    k.role
  }

  /** Keys built by the factories read back their key and role. */
  lemma FactoryRoundTrip(key: TypeToken, role: string)
    ensures GetForToken(Some(key), Some(role)).Success?
    ensures GetKey(GetForToken(Some(key), Some(role)).value) == key
    ensures GetRole(GetForToken(Some(key), Some(role)).value) == role
    ensures GetRole(GetDefaultForToken(Some(key)).value) == DEFAULT_ROLE
  {
  }

  /**
   * equals(Object): true for the same object; false for null and for
   * objects of another class; otherwise the keys and the roles are compared.
   */
  function Equals(self: AdapterKey, obj: Option<JavaObject>): (r: bool)
    ensures r <==> obj.Some? && obj.value.KeyObject? && obj.value.k.key == self.key && obj.value.k.role == self.role
  {
    match obj
    case None => false
    case Some(OtherObject) => false
    case Some(KeyObject(other)) => other == self || (self.key == other.key && self.role == other.role)
  }

  lemma EqualsIsAnEquivalence(a: AdapterKey, b: AdapterKey, c: AdapterKey)
    ensures Equals(a, Some(KeyObject(a)))
    ensures Equals(a, Some(KeyObject(b))) <==> Equals(b, Some(KeyObject(a)))
    ensures Equals(a, Some(KeyObject(b))) && Equals(b, Some(KeyObject(c))) ==> Equals(a, Some(KeyObject(c)))
    ensures Equals(a, Some(KeyObject(b))) <==> a == b
  {
  }

  /**
   * hashCode(): result = 1; result = 31 * result + h(key); result = 31 * result + h(role),
   * each step in int arithmetic. hashOf is TypeToken.hashCode.
   */
  function HashCode(self: AdapterKey, hashOf: TypeToken -> int): (r: int)
    ensures IsInt32(r)
    ensures r == Wrap(31 * 31 + 31 * Wrap(hashOf(self.key)) + StringHash(self.role))
  {
    var prime := 31;
    var result := 1;
    var result := Wrap(prime * result + Wrap(hashOf(self.key)));
    var result := Wrap(prime * result + StringHash(self.role));
    WrapAbsorbs(31 + Wrap(hashOf(self.key)), StringHash(self.role), 31);
    result
  }

  /** Keys that are equal hash equally, whatever TypeToken.hashCode is. */
  lemma EqualKeysHashEqually(a: AdapterKey, b: AdapterKey, hashOf: TypeToken -> int)
    requires Equals(a, Some(KeyObject(b)))
    ensures HashCode(a, hashOf) == HashCode(b, hashOf)
  {
  }

  /** toString(); render is TypeToken.toString. */
  function ToString(self: AdapterKey, render: TypeToken -> string): (r: string)
    ensures |r| == |"AdapterKey("| + |render(self.key)| + |", "| + |self.role| + |")"|
    ensures r[..11] == "AdapterKey(" && r[|r| - 1] == ')'
  {
    "AdapterKey(" + render(self.key) + ", " + self.role + ")"
  }

  /** Two keys whose tokens render alike have the same string form only if their roles agree. */
  lemma ToStringDistinguishesRoles(a: AdapterKey, b: AdapterKey, render: TypeToken -> string)
    requires render(a.key) == render(b.key)
    requires ToString(a, render) == ToString(b, render)
    ensures a.role == b.role
  {
    var n := |"AdapterKey(" + render(a.key) + ", "|;
    var sa := ToString(a, render);
    var sb := ToString(b, render);
    assert |a.role| == |b.role|;
    assert sa[n..|sa| - 1] == a.role;
    assert sb[n..|sb| - 1] == b.role;
  }
}
