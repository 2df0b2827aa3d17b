/** Custom menu events: a `(uint16 type, int16 value)` pair stored in a packed
    union and read back as one `uint32`. The target is little-endian, so the
    first union member (`type`) occupies the low 16 bits and the two's
    complement of `value` the high 16 bits. */
module MenuEvent {
  import opened Bytes

  /** An optional out-parameter of the source: NULL, or the address of a
      caller variable holding its current value. */
  datatype OutPtr<T> = Null | Ptr(target: T)

  /** The 16 bits that store an `int16` (two's complement). */
  function Bits16(v: int16): (u: uint16)
    ensures v >= 0 ==> u == v
    ensures v < 0 ==> u == v + 0x1_0000
  {
    if v < 0 then v + 0x1_0000 else v
  }

  /** The `int16` whose two's-complement bits are `u`. */
  function Signed16(u: uint16): (v: int16)
    ensures Bits16(v) == u
  {
    if u >= 0x8000 then u - 0x1_0000 else u
  }

  function Pack(t: uint16, v: int16): (packed: uint32)
    ensures packed % 0x1_0000 == t
    ensures packed / 0x1_0000 == Bits16(v)
  {
    t + Bits16(v) * 0x1_0000
  }

  /** Writes the type half through `typeOut` and the value half through
      `valueOut`; a NULL out-parameter suppresses only its own write. */
  function Unpack(packed: uint32, typeOut: OutPtr<uint16>, valueOut: OutPtr<int16>)
    : (r: (OutPtr<uint16>, OutPtr<int16>))
    ensures r.0.Null? <==> typeOut.Null?
    ensures r.1.Null? <==> valueOut.Null?
  {
    var t: uint16 := packed % 0x1_0000;
    var v: int16 := Signed16(packed / 0x1_0000);
    (if typeOut.Ptr? then Ptr(t) else Null, if valueOut.Ptr? then Ptr(v) else Null)
  }

  function GetType(packed: uint32): (t: uint16)
    ensures t == packed % 0x1_0000
  {
    Unpack(packed, Ptr(0), Null).0.target
  }

  function GetValue(packed: uint32): (v: int16)
    ensures Bits16(v) == packed / 0x1_0000
  {
    Unpack(packed, Null, Ptr(0)).1.target
  }

  lemma TypeRoundTrip(t: uint16, v: int16)
    ensures GetType(Pack(t, v)) == t
  {
  }

  lemma Bits16Injective(a: int16, b: int16)
    ensures Bits16(a) == Bits16(b) ==> a == b
  {
  }

  lemma ValueRoundTrip(t: uint16, v: int16)
    ensures GetValue(Pack(t, v)) == v
  {
    Bits16Injective(GetValue(Pack(t, v)), v);
  }

  lemma UnpackRoundTrip(t: uint16, v: int16, t0: uint16, v0: int16)
    ensures Unpack(Pack(t, v), Ptr(t0), Ptr(v0)) == (Ptr(t), Ptr(v))
    ensures Unpack(Pack(t, v), Null, Ptr(v0)) == (Null, Ptr(v))
    ensures Unpack(Pack(t, v), Ptr(t0), Null) == (Ptr(t), Null)
  {
    ValueRoundTrip(t, v);
  }

  /** Distinct pairs give distinct packed values, and every `uint32` is the
      packing of the pair read back from it. */
  lemma PackBijective(t: uint16, v: int16, t': uint16, v': int16, packed: uint32)
    ensures Pack(t, v) == Pack(t', v') ==> t == t' && v == v'
    ensures Pack(GetType(packed), GetValue(packed)) == packed
  {
    TypeRoundTrip(t, v);
    TypeRoundTrip(t', v');
    ValueRoundTrip(t, v);
    ValueRoundTrip(t', v');
  }
}
