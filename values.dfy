/** Values that cross the boundary between the managed handle and the native
    archive engine: managed property values, native tagged properties, and the
    conversion between them. */
module Values {

  /** A managed `int`: 32-bit two's complement. */
  newtype int32 = x: int | -0x8000_0000 <= x < 0x8000_0000

  /** A native `UInt32`. */
  newtype uint32 = x: int | 0 <= x < 0x1_0000_0000

  /** A native result code (`HRESULT`, a signed 32-bit value); zero is `S_OK`. */
  type HResult = int32

  const S_OK: HResult := 0

  /** A managed property value as the handle stores it in its property map:
      a `Boolean`, an `Integer`, a `String`, or an object of any other class. */
  datatype JValue = JBoolean(b: bool) | JInteger(i: int32) | JString(s: string) | JOther

  /** The native tagged property (`CPropVariant`) handed to the engine. */
  datatype PropVariant = PropBool(b: bool) | PropUInt32(u: uint32) | PropString(s: string)

  /** The C++ conversion `(UInt32) value` of a managed int: the same value modulo 2^32. */
  function UInt32Of(x: int32): (u: uint32)
    ensures u as int % 0x1_0000_0000 == x as int % 0x1_0000_0000
    ensures 0 <= x ==> u as int == x as int
  {
    if x < 0 then (x as int + 0x1_0000_0000) as uint32 else x as uint32
  }

  /** Reading a `UInt32` back as a managed int (two's complement). */
  function Int32Of(u: uint32): (x: int32)
    ensures x as int % 0x1_0000_0000 == u as int % 0x1_0000_0000
  {
    if u < 0x8000_0000 then u as int as int32 else (u as int - 0x1_0000_0000) as int32
  }

  /** The two 32-bit readings are inverse to each other. */
  lemma UInt32Bijection(x: int32, u: uint32)
    ensures Int32Of(UInt32Of(x)) == x
    ensures UInt32Of(Int32Of(u)) == u
  {
  }

  /** The per-value dispatch of the native property setter: a `Boolean` becomes a
      bool property, an `Integer` a UInt32 property, a `String` a string property,
      and an object of any other class the bool property `false`. */
  function ToNative(v: JValue): (p: PropVariant)
    ensures p.PropString? <==> v.JString?
    ensures p.PropString? ==> p.s == v.s
    ensures p.PropUInt32? <==> v.JInteger?
    ensures p.PropBool? <==> (v.JBoolean? || v.JOther?)
    ensures p.PropBool? ==> (p.b <==> v.JBoolean? && v.b)
    ensures p.PropUInt32? ==> p.u as int % 0x1_0000_0000 == v.i as int % 0x1_0000_0000
  {
    match v
    case JBoolean(b) => PropBool(b)
    case JInteger(i) => PropUInt32(UInt32Of(i))
    case JString(s) => PropString(s)
    case JOther => PropBool(false)
  }

  /** The managed reading of a native property: the inverse direction of `ToNative`. */
  function ToManaged(p: PropVariant): (v: JValue)
    ensures !v.JOther?
  {
    match p
    case PropBool(b) => JBoolean(b)
    case PropUInt32(u) => JInteger(Int32Of(u))
    case PropString(s) => JString(s)
  }

  /** Every supported managed value survives the trip to the native side and back. */
  lemma {:induction false} ManagedRoundTrip(v: JValue)
    requires !v.JOther?
    ensures ToManaged(ToNative(v)) == v
  {
    if v.JInteger? {
      UInt32Bijection(v.i, 0);
    }
  }

  /** Every native property survives the trip to the managed side and back. */
  lemma {:induction false} NativeRoundTrip(p: PropVariant)
    ensures ToNative(ToManaged(p)) == p
  {
    if p.PropUInt32? {
      UInt32Bijection(0, p.u);
    }
  }

  /** The fallback is lossy: an unsupported value is indistinguishable, once
      converted, from the managed `false`. */
  lemma FallbackIsLossy()
    ensures ToNative(JOther) == ToNative(JBoolean(false))
    ensures ToManaged(ToNative(JOther)) != JOther
  {
  }
}
