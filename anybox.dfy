/** The type-erased result container (`MyAny`): one value together with the
    identity of its concrete type. */
module AnyBox {
  import opened Outcomes

  /** Identity of a concrete value type of the client program. */
  type TypeTag = nat

  /** The tag of `int`, the type of the value every task result starts with. */
  const IntTag: TypeTag := 0

  /** A stored value, opaque to the scheduler; a boxed `int` is the int itself. */
  type Payload = int

  datatype Box = Box(tag: TypeTag, payload: Payload) {

    /** `get<T>`: the stored value when `t` names the stored type; a
        `TypeMismatch` failure otherwise, instead of a misread. */
    function Get(t: TypeTag): (r: Result<Payload>)
      ensures r.Ok? <==> t == tag
      ensures r.Ok? ==> r.value == payload
      ensures r.Err? ==> r.error == TypeMismatch
    {
      if t == tag then Ok(payload) else Err(TypeMismatch)
    }
  }

  /** Boxing a value of type `t` (the converting constructor). */
  function Make(t: TypeTag, v: Payload): (b: Box)
    ensures b.tag == t && b.Get(t) == Ok(v)
  {
    Box(t, v)
  }

  /** `MyAny result = 0`: a boxed int zero. */
  const InitialResult: Box := Make(IntTag, 0)

  /** Get recovers exactly the stored value when the type matches. */
  lemma GetMake(t: TypeTag, v: Payload)
    ensures Make(t, v).Get(t) == Ok(v)
  {
  }

  /** Get with any other type fails and never yields a value. */
  lemma GetMakeMismatch(t: TypeTag, u: TypeTag, v: Payload)
    requires u != t
    ensures Make(t, v).Get(u) == Err(TypeMismatch)
  {
  }

  /** Boxing is injective: two boxes that answer every Get alike are equal. */
  lemma GetDeterminesBox(a: Box, b: Box)
    requires forall t: TypeTag :: a.Get(t) == b.Get(t)
    ensures a == b
  {
    assert a.Get(a.tag).Ok?;
    assert b.Get(a.tag).Ok?;
  }
}
