/**
  What the UUID operations promise beyond a single call: expansion as the
  Bluetooth Core Specification's arithmetic formula, its inverse (the
  shortest UUID denoting 16 given bytes), agreement between the 16- and
  32-bit embeddings, comparison as a total order on 128-bit integers, and
  the little-endian encoding as a reversible encoding of the same integer.
 */
module UuidProperties {
  import opened ByteOrder
  import opened Uuid

  // ---------------------------------------------------------------------
  // Reference definitions
  // ---------------------------------------------------------------------

  /** The Base UUID as a 128-bit integer. */
  const BaseUuidValue: nat := 0x0000_0000_0000_1000_8000_0080_5F9B_34FB

  /** 2^96: the weight of the first of the four value bytes. */
  const Shift96: nat := 0x1_0000_0000_0000_0000_0000_0000

  /** The 128-bit integer a UUID stands for, by the Bluetooth Core
      Specification's rule (Vol 3, Part B, section 2.5.1): a 16- or 32-bit
      value v denotes v * 2^96 + Base UUID. */
  function SpecValue(u: Uuid): int
    requires !u.Unspec?
  {
    match u
    case Uuid16(v) => v * Shift96 + BaseUuidValue
    case Uuid32(v) => v * Shift96 + BaseUuidValue
    case Uuid128(b) => BEValue(b)
  }

  /** The value of a 16- or 32-bit UUID. */
  function ShortValue(u: Uuid): uint32
    requires u.Uuid16? || u.Uuid32?
  {
    if u.Uuid16? then u.value16 else u.value32
  }

  /** The narrowest UUID whose expansion is `b`: 16-bit when `b` differs from
      the base only in bytes 2 and 3, 32-bit when it differs only in bytes
      0 to 3, and 128-bit otherwise. */
  function ShortForm(b: Uint128): (r: Uuid)
    ensures !r.Unspec?
  {
    if b[4..] != BluetoothBaseUuid[4..] then Uuid128(b)
    else if b[0] == 0 && b[1] == 0 then
      BEValueBound(b[2..4]);
      assert Pow256(2) == 0x1_0000;
      Uuid16(BEValue(b[2..4]))
    else
      BEValueBound(b[..4]);
      assert Pow256(4) == 0x1_0000_0000 by {
        assert Pow256(2) == 0x1_0000;
      }
      Uuid32(BEValue(b[..4]))
  }

  /** A model decoder for the little-endian wire form: two bytes are a
      16-bit UUID, sixteen bytes a 128-bit one, anything else no UUID. */
  function FromLe(wire: seq<uint8>): Uuid
  {
    if |wire| == 2 then Uuid16(wire[0] + 0x100 * wire[1] as int)
    else if |wire| == 16 then Uuid128(Reverse(wire))
    else Unspec
  }

  // ---------------------------------------------------------------------
  // Expansion
  // ---------------------------------------------------------------------

  /** Expanding twice is expanding once: every UUID with a width becomes a
      128-bit UUID, which `bt_uuid_to_uuid128` copies unchanged. */
  lemma ToUuid128Idempotent(u: Uuid, dst: Uuid, dst': Uuid)
    requires !u.Unspec?
    ensures ToUuid128(ToUuid128(u, dst), dst') == ToUuid128(u, dst)
    ensures ToUuid128(u, dst) == Uuid128(Canonical(u))
  {
  }

  /** The Base UUID's bytes denote `BaseUuidValue`, whose top 32 bits are
      zero. */
  lemma BaseUuidValueMatches()
    ensures BEValue(BluetoothBaseUuid) == BaseUuidValue
    ensures BEValue(BluetoothBaseUuid[4..]) == BaseUuidValue
  {
    var q0: seq<uint8> := [0, 0, 0, 0];
    var q1: seq<uint8> := [0, 0, 0x10, 0];
    var q2: seq<uint8> := [0x80, 0, 0, 0x80];
    var q3: seq<uint8> := [0x5F, 0x9B, 0x34, 0xFB];
    assert BluetoothBaseUuid == q0 + (q1 + (q2 + q3));
    assert BluetoothBaseUuid[4..] == q1 + (q2 + q3);
    assert BEValue(q0) == 0 by {
      BEValue4(q0);
    }
    assert BEValue(q1) == 0x1000 by {
      BEValue4(q1);
    }
    assert BEValue(q2) == 0x8000_0080 by {
      BEValue4(q2);
    }
    assert BEValue(q3) == 0x5F9B_34FB by {
      BEValue4(q3);
    }
    assert BEValue(q1 + (q2 + q3)) == BaseUuidValue by {
      BEValueQuads(q0, q1, q2, q3);
    }
    assert BEValue(q0 + (q1 + (q2 + q3))) == BaseUuidValue by {
      BEValueQuads(q0, q1, q2, q3);
    }
  }

  /** Sixteen bytes read big-endian, four at a time. */
  lemma BEValueQuads(q0: seq<uint8>, q1: seq<uint8>, q2: seq<uint8>, q3: seq<uint8>)
    requires |q0| == |q1| == |q2| == |q3| == 4
    ensures BEValue(q1 + (q2 + q3)) == BEValue(q1) * 0x1_0000_0000_0000_0000
      + BEValue(q2) * 0x1_0000_0000
      + BEValue(q3)
    ensures BEValue(q0 + (q1 + (q2 + q3))) == BEValue(q0) * Shift96
      + BEValue(q1 + (q2 + q3))
  {
    var low := BEValue(q2 + q3);
    assert low == BEValue(q2) * 0x1_0000_0000 + BEValue(q3) by {
      BEValueAppend(q2, q3);
      assert Pow256(4) == 0x1_0000_0000;
    }
    assert BEValue(q1 + (q2 + q3)) == BEValue(q1) * 0x1_0000_0000_0000_0000 + low by {
      BEValueAppend(q1, q2 + q3);
      assert Pow256(8) == 0x1_0000_0000_0000_0000;
    }
    assert BEValue(q0 + (q1 + (q2 + q3))) == BEValue(q0) * Shift96 + BEValue(q1 + (q2 + q3)) by {
      BEValueAppend(q0, q1 + (q2 + q3));
      assert Pow256(12) == Shift96;
    }
  }

  /** The 16-bytes of a 32-bit expansion are the value's big-endian bytes
      followed by the base's last twelve. */
  lemma Uuid32Layout(v: uint32)
    ensures Canonical(Uuid32(v)) == BE32(v) + BluetoothBaseUuid[4..]
  {
    var c := Canonical(Uuid32(v));
    assert c == c[..4] + c[4..];
  }

  /** The 16-bytes of a 16-bit expansion are two zero bytes, the value's
      big-endian bytes, then the base's last twelve. */
  lemma Uuid16Layout(v: uint16)
    ensures Canonical(Uuid16(v)) == [0, 0] + BE16(v) + BluetoothBaseUuid[4..]
  {
    var c := Canonical(Uuid16(v));
    assert c[2..4] == BE16(v);
    assert c == [c[0], c[1]] + c[2..4] + c[4..];
  }

  /** A 32-bit UUID and a 16-bit UUID expand to the same 128 bits exactly
      when they hold the same value (so the 32-bit value is below 2^16). */
  lemma {:induction false} Uuid32AgreesWithUuid16(v: uint32, w: uint16)
    ensures Canonical(Uuid32(v)) == Canonical(Uuid16(w)) <==> v == w
  {
    Uuid32Layout(v);
    Uuid16Layout(w);
    BE32OfShort(v);
    if Canonical(Uuid32(v)) == Canonical(Uuid16(w)) {
      assert BE32(v) == [0, 0] + BE16(w) by {
        assert Canonical(Uuid32(v))[..4] == BE32(v);
        assert Canonical(Uuid16(w))[..4] == [0, 0] + BE16(w);
      }
      assert BEValue([0, 0] + BE16(w)) == w by {
        BEValueAppend([0, 0], BE16(w));
        BEValue2([0, 0]);
      }
    }
  }

  /** The big-endian reading of a 32-bit expansion is v * 2^96 + Base UUID. */
  lemma Uuid32Value(v: uint32)
    ensures BEValue(Canonical(Uuid32(v))) == v * Shift96 + BaseUuidValue
  {
    var tail := BluetoothBaseUuid[4..];
    assert Canonical(Uuid32(v)) == BE32(v) + tail by {
      Uuid32Layout(v);
    }
    assert BEValue(BE32(v) + tail) == v * Shift96 + BEValue(tail) by {
      BEValueAppend(BE32(v), tail);
      assert Pow256(12) == Shift96;
    }
    assert BEValue(tail) == BaseUuidValue by {
      BaseUuidValueMatches();
    }
  }

  /** Expansion is the Bluetooth Core Specification's formula: the 16 bytes
      read big-endian are v * 2^96 + Base UUID for a short UUID of value v,
      and the stored 128 bits for a full one. */
  lemma CanonicalIsSpecValue(u: Uuid)
    requires !u.Unspec?
    ensures BEValue(Canonical(u)) == SpecValue(u)
  {
    match u
    case Uuid128(_) =>
    case Uuid32(v) =>
      Uuid32Value(v);
    case Uuid16(v) =>
      Uuid32AgreesWithUuid16(v, v);
      Uuid32Value(v);
  }

  /** `ShortForm` undoes expansion: its result expands back to `b`. */
  lemma {:induction false} ShortFormExpands(b: Uint128)
    ensures Canonical(ShortForm(b)) == b
  {
    if b[4..] == BluetoothBaseUuid[4..] {
      if b[0] == 0 && b[1] == 0 {
        var w := ShortForm(b).value16;
        Uuid16Layout(w);
        BEValueInjective(BE16(w), b[2..4]);
        assert b == [b[0], b[1]] + b[2..4] + b[4..];
      } else {
        var w := ShortForm(b).value32;
        Uuid32Layout(w);
        BEValueInjective(BE32(w), b[..4]);
        assert b == b[..4] + b[4..];
      }
    }
  }

  /** A 16-bit UUID's expansion shortens back to that UUID. */
  lemma {:induction false} ShortFormOf16(v: uint16)
    ensures ShortForm(Canonical(Uuid16(v))) == Uuid16(v)
  {
    Uuid16Layout(v);
    var c := Canonical(Uuid16(v));
    assert c[2..4] == BE16(v);
  }

  /** A 32-bit UUID's expansion shortens back to it, or to the 16-bit UUID of
      the same value when the value fits in 16 bits. */
  lemma {:induction false} ShortFormOf32(v: uint32)
    ensures ShortForm(Canonical(Uuid32(v))) ==
      if v < 0x1_0000 then Uuid16(v) else Uuid32(v)
  {
    if v < 0x1_0000 {
      Uuid32AgreesWithUuid16(v, v);
      ShortFormOf16(v);
    } else {
      Uuid32Layout(v);
      BE32OfShort(v);
      var c := Canonical(Uuid32(v));
      assert c[..4] == BE32(v);
      assert c[..2] == BE32(v)[..2];
    }
  }

  /** Expansion of each short width is one-to-one. */
  lemma CanonicalInjectiveOnShort(a: Uuid, b: Uuid)
    requires (a.Uuid16? && b.Uuid16?) || (a.Uuid32? && b.Uuid32?)
    ensures Canonical(a) == Canonical(b) <==> a == b
  {
    if a.Uuid16? {
      ShortFormOf16(a.value16);
      ShortFormOf16(b.value16);
    } else {
      ShortFormOf32(a.value32);
      ShortFormOf32(b.value32);
    }
  }

  // ---------------------------------------------------------------------
  // Comparison
  // ---------------------------------------------------------------------

  /** `bt_uuid_cmp` orders UUIDs as the 128-bit integers they denote. */
  lemma {:induction false} CompareIsNumericOrder(a: Uuid, b: Uuid)
    requires !a.Unspec? && !b.Unspec?
    ensures Compare(a, b) == Sign(SpecValue(a) - SpecValue(b))
  {
    LexCompareIsNumericOrder(Canonical(a), Canonical(b));
    CanonicalIsSpecValue(a);
    CanonicalIsSpecValue(b);
  }

  /** Between short UUIDs of either width, `bt_uuid_cmp` orders by value. */
  lemma {:induction false} CompareShortByValue(a: Uuid, b: Uuid)
    requires a.Uuid16? || a.Uuid32?
    requires b.Uuid16? || b.Uuid32?
    ensures Compare(a, b) == Sign(ShortValue(a) - ShortValue(b))
  {
    CompareIsNumericOrder(a, b);
    ScaledSign(ShortValue(a), ShortValue(b), Shift96, BaseUuidValue);
  }

  /** Scaling by a positive factor and shifting both sides keeps the sign of
      a difference. */
  lemma ScaledSign(x: int, y: int, p: int, c: int)
    requires p >= 1
    ensures Sign((x * p + c) - (y * p + c)) == Sign(x - y)
  {
    if x < y {
      MulLt(x, y, p);
    } else if y < x {
      MulLt(y, x, p);
    }
  }

  /** The result is negative exactly when, at the first byte where the two
      expansions differ, `a`'s byte is the smaller. */
  lemma {:induction false} CompareFirstDifference(a: Uuid, b: Uuid)
    requires !a.Unspec? && !b.Unspec?
    ensures Compare(a, b) < 0 <==>
      exists i :: 0 <= i < 16 && Canonical(a)[..i] == Canonical(b)[..i] &&
        Canonical(a)[i] < Canonical(b)[i]
  {
    LexCompareFirstDifference(Canonical(a), Canonical(b));
  }

  /** Swapping the operands of `bt_uuid_cmp` negates the result. */
  lemma {:induction false} CompareAntisymmetric(a: Uuid, b: Uuid)
    requires !a.Unspec? && !b.Unspec?
    ensures Compare(b, a) == -Compare(a, b)
  {
    LexCompareAntisymmetric(Canonical(a), Canonical(b));
  }

  /** `bt_uuid_cmp` is transitive, both strictly and non-strictly. */
  lemma {:induction false} CompareTransitive(a: Uuid, b: Uuid, c: Uuid)
    requires !a.Unspec? && !b.Unspec? && !c.Unspec?
    ensures Compare(a, b) <= 0 && Compare(b, c) <= 0 ==> Compare(a, c) <= 0
    ensures Compare(a, b) < 0 && Compare(b, c) <= 0 ==> Compare(a, c) < 0
  {
    CompareIsNumericOrder(a, b);
    CompareIsNumericOrder(b, c);
    CompareIsNumericOrder(a, c);
  }

  /** A UUID compares equal to itself and to the 128-bit UUID it expands to;
      a 32-bit UUID compares equal to a 16-bit one exactly when their values
      are equal. */
  lemma CompareAcrossWidths(u: Uuid, v: uint32, w: uint16)
    requires !u.Unspec?
    ensures Compare(u, u) == 0
    ensures Compare(u, Uuid128(Canonical(u))) == 0
    ensures Compare(Uuid32(v), Uuid16(w)) == 0 <==> v == w
  {
    Uuid32AgreesWithUuid16(v, w);
  }

  // ---------------------------------------------------------------------
  // Little-endian encoding
  // ---------------------------------------------------------------------

  /** The bytes `bt_uuid_to_le` writes, read little-endian, are the UUID's
      value: the 16-bit value itself, or the 128-bit integer it expands to. */
  lemma {:induction false} ToLeEncodesValue(u: Uuid, dst: seq<uint8>)
    requires !u.Unspec? && WireLength(u) <= |dst|
    ensures LEValue(ToLe(u, dst).buffer[..WireLength(u)]) ==
      if u.Uuid16? then u.value16 else SpecValue(u)
  {
    if !u.Uuid16? {
      LEValueOfReverse(Canonical(u));
      CanonicalIsSpecValue(u);
    } else {
      assert ToLe(u, dst).buffer[..2] == LE16(u.value16);
    }
  }

  /** `bt_uuid_to_le` writes exactly `WireLength` bytes: what lands there
      depends only on the UUID, never on what the buffer held before, and
      everything after them is the old contents. */
  lemma ToLeWritesWireLength(u: Uuid, dst: seq<uint8>, dst': seq<uint8>)
    requires WireLength(u) <= |dst| && WireLength(u) <= |dst'|
    ensures ToLe(u, dst).buffer[..WireLength(u)] == ToLe(u, dst').buffer[..WireLength(u)]
    ensures ToLe(u, dst).buffer == ToLe(u, dst).buffer[..WireLength(u)] + dst[WireLength(u)..]
  {
    var n := WireLength(u);
    var b := ToLe(u, dst).buffer;
    assert b == b[..n] + b[n..];
    if u.Uuid16? {
      assert ToLe(u, dst).buffer[..2] == ToLe(u, dst').buffer[..2];
    } else if !u.Unspec? {
      assert ToLe(u, dst).buffer[..16] == ToLe(u, dst').buffer[..16];
    }
  }

  /** Decoding what `bt_uuid_to_le` writes gives back the UUID: the same UUID
      for 16- and 128-bit ones, its 128-bit expansion for a 32-bit one, and in
      every case one that `bt_uuid_cmp` calls equal. */
  lemma {:induction false} ToLeRoundTrip(u: Uuid, dst: seq<uint8>)
    requires !u.Unspec? && WireLength(u) <= |dst|
    ensures FromLe(ToLe(u, dst).buffer[..WireLength(u)]) ==
      if u.Uuid32? then Uuid128(Canonical(u)) else u
    ensures !FromLe(ToLe(u, dst).buffer[..WireLength(u)]).Unspec?
    ensures Compare(FromLe(ToLe(u, dst).buffer[..WireLength(u)]), u) == 0
  {
    var wire := ToLe(u, dst).buffer[..WireLength(u)];
    if u.Uuid16? {
      assert wire == [u.value16 % 0x100, u.value16 / 0x100];
    } else {
      ReverseInvolution(Canonical(u));
    }
  }

  // ---------------------------------------------------------------------
  // Worked examples (Serial Port service class, 0x1101)
  // ---------------------------------------------------------------------

  /** The 16-bit Serial Port UUID compares equal to its written-out 128-bit
      form. */
  lemma SerialPortCompareExample()
    ensures Compare(Uuid16(0x1101),
      Uuid128([0x00, 0x00, 0x11, 0x01, 0x00, 0x00, 0x10, 0x00,
               0x80, 0x00, 0x00, 0x80, 0x5F, 0x9B, 0x34, 0xFB])) == 0
  {
    var b: Uint128 := [0x00, 0x00, 0x11, 0x01, 0x00, 0x00, 0x10, 0x00,
                       0x80, 0x00, 0x00, 0x80, 0x5F, 0x9B, 0x34, 0xFB];
    assert b[4..] == BluetoothBaseUuid[4..];
    assert BEValue(b[2..4]) == 0x1101 by {
      BEValue2(b[2..4]);
    }
    assert ShortForm(b) == Uuid16(0x1101);
    ShortFormExpands(b);
  }

  /** On the wire the Serial Port UUID is the two bytes 0x01 0x11. */
  lemma SerialPortWireExample()
    ensures ToLe(Uuid16(0x1101), [0, 0]) == LeResult(0, [0x01, 0x11])
  {
    var r := ToLe(Uuid16(0x1101), [0, 0]);
    assert r.buffer == r.buffer[..2] + r.buffer[2..];
  }

  /** On the wire the Base UUID is its sixteen bytes in reverse order. */
  lemma BaseUuidWireExample()
    ensures ToLe(Uuid128(BluetoothBaseUuid), seq(16, _ => 0)).buffer ==
      [0xFB, 0x34, 0x9B, 0x5F, 0x80, 0x00, 0x00, 0x80,
       0x00, 0x10, 0x00, 0x00, 0x00, 0x00, 0x00, 0x00]
  {
    var b := BluetoothBaseUuid;
    var w := ToLe(Uuid128(b), seq(16, _ => 0)).buffer;
    assert w == Reverse(b) by {
      assert w == w[..16];
    }
    ReverseSixteen(b);
  }

  /** Reversal of sixteen bytes written out. */
  lemma ReverseSixteen(b: seq<uint8>)
    requires |b| == 16
    ensures Reverse(b) == [b[15], b[14], b[13], b[12], b[11], b[10], b[9], b[8],
                           b[7], b[6], b[5], b[4], b[3], b[2], b[1], b[0]]
  {
    var r := Reverse(b);
    assert r[..8] == [b[15], b[14], b[13], b[12], b[11], b[10], b[9], b[8]];
    assert r[8..] == [b[7], b[6], b[5], b[4], b[3], b[2], b[1], b[0]];
    assert r == r[..8] + r[8..];
  }

  /** An unspecified UUID is refused and the buffer keeps its contents. */
  lemma UnspecWireExample()
    ensures ToLe(Unspec, [7, 7]) == LeResult(-EINVAL, [7, 7])
  {
  }
}
