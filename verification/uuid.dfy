/**
  Bluetooth UUIDs as handled by BlueZ's `src/shared/uuid.c`: a value in one of
  three widths (16, 32 or 128 bits) or unspecified; expansion of the short
  widths into the Bluetooth Base UUID (Bluetooth Core Specification, Vol 3,
  Part B, section 2.5.1); comparison of the expanded forms with `memcmp`; and
  the little-endian wire encoding.

  A 128-bit UUID is held, as in the C `uint128_t`, as 16 bytes in big-endian
  order. 16- and 32-bit UUIDs are held as plain integers of that width.
 */
module Uuid {
  import opened ByteOrder

  /** The C `uint128_t`: sixteen bytes, most significant first. */
  type Uint128 = s: seq<uint8> | |s| == 16
    witness [0, 0, 0, 0, 0, 0, 0, 0, 0, 0, 0, 0, 0, 0, 0, 0]

  /** The tagged `bt_uuid_t`: the tag and the populated union member in one. */
  datatype Uuid =
    | Uuid16(value16: uint16)
    | Uuid32(value32: uint32)
    | Uuid128(value128: Uint128)
    | Unspec

  /** The Bluetooth Base UUID 00000000-0000-1000-8000-00805F9B34FB. */
  const BluetoothBaseUuid: Uint128 :=
    [0x00, 0x00, 0x00, 0x00, 0x00, 0x00, 0x10, 0x00,
     0x80, 0x00, 0x00, 0x80, 0x5F, 0x9B, 0x34, 0xFB]

  /** Byte offset inside the base UUID where a 16-bit value is stored. */
  const Base16Offset: nat := 2
  /** Byte offset inside the base UUID where a 32-bit value is stored. */
  const Base32Offset: nat := 0

  /** The Linux value of `EINVAL`; `bt_uuid_to_le` returns its negation. */
  const EINVAL: int := 22

  // ---------------------------------------------------------------------
  // Expansion to 128 bits
  // ---------------------------------------------------------------------

  /** `bt_uuid16_to_uuid128`: the base UUID with the 16-bit value stored
      big-endian in bytes 2 and 3; every other byte is the base's. */
  function Uuid16ToUuid128(v: uint16): (r: Uuid)
    ensures r.Uuid128?
    ensures r.value128[2] == v / 0x100 && r.value128[3] == v % 0x100
    ensures forall i :: 0 <= i < 16 && i != 2 && i != 3 ==>
      r.value128[i] == BluetoothBaseUuid[i]
  {
    Uuid128(Overwrite(BluetoothBaseUuid, Base16Offset, BE16(v)))
  }

  /** `bt_uuid32_to_uuid128`: the base UUID with the 32-bit value stored
      big-endian in bytes 0 to 3; bytes 4 to 15 are the base's. */
  function Uuid32ToUuid128(v: uint32): (r: Uuid)
    ensures r.Uuid128?
    ensures BEValue(r.value128[..4]) == v
    ensures r.value128[4..] == BluetoothBaseUuid[4..]
  {
    Uuid128(Overwrite(BluetoothBaseUuid, Base32Offset, BE32(v)))
  }

  /** `bt_uuid_to_uuid128(src, dst)`: the value `dst` holds afterwards. A
      128-bit UUID is copied, a short one expanded into the base UUID, and
      for an unspecified UUID `dst` is left as it was. */
  function ToUuid128(src: Uuid, dst: Uuid): (r: Uuid)
    ensures src.Unspec? ==> r == dst
    ensures !src.Unspec? ==> r.Uuid128?
    ensures src.Uuid128? ==> r == src
  {
    match src
    case Uuid128(_) => src
    case Uuid32(v) => Uuid32ToUuid128(v)
    case Uuid16(v) => Uuid16ToUuid128(v)
    case Unspec => dst
  }

  /** The 16 big-endian bytes a UUID of some width stands for. Unspecified
      UUIDs have none: `bt_uuid_to_uuid128` writes nothing for them. */
  function Canonical(u: Uuid): (r: Uint128)
    requires !u.Unspec?
    ensures u.Uuid128? ==> r == u.value128
    ensures !u.Uuid128? ==> r[4..] == BluetoothBaseUuid[4..]
  {
    ToUuid128(u, Unspec).value128
  }

  // ---------------------------------------------------------------------
  // Construction
  // ---------------------------------------------------------------------

  /** `bt_uuid16_create`: always succeeds with a 16-bit UUID of that value. */
  method Uuid16Create(value: uint16) returns (rc: int, uuid: Uuid)
    ensures rc == 0
    ensures uuid.Uuid16? && uuid.value16 == value
  {
    rc := 0;
    uuid := Uuid16(value);
  }

  /** `bt_uuid32_create`: always succeeds with a 32-bit UUID of that value. */
  method Uuid32Create(value: uint32) returns (rc: int, uuid: Uuid)
    ensures rc == 0
    ensures uuid.Uuid32? && uuid.value32 == value
  {
    rc := 0;
    uuid := Uuid32(value);
  }

  /** `bt_uuid128_create`: always succeeds with a 128-bit UUID of that value. */
  method Uuid128Create(value: Uint128) returns (rc: int, uuid: Uuid)
    ensures rc == 0
    ensures uuid.Uuid128? && uuid.value128 == value
  {
    rc := 0;
    uuid := Uuid128(value);
  }

  // ---------------------------------------------------------------------
  // Comparison
  // ---------------------------------------------------------------------

  /** `bt_uuid_cmp`: `memcmp` of the two expanded forms, as -1, 0 or 1.
      Both operands must have a width: for an unspecified one the C code
      compares an uninitialised buffer. */
  function Compare(a: Uuid, b: Uuid): (r: int)
    requires !a.Unspec? && !b.Unspec?
    ensures -1 <= r <= 1
    ensures r == 0 <==> Canonical(a) == Canonical(b)
  {
    LexCompare(Canonical(a), Canonical(b))
  }

  // ---------------------------------------------------------------------
  // Little-endian wire encoding
  // ---------------------------------------------------------------------

  /** How many bytes `bt_uuid_to_le` writes for a UUID of this width: the
      16 bits of a 16-bit UUID, the full 128 bits otherwise, nothing when
      there is no width. */
  function WireLength(u: Uuid): nat
  {
    match u
    case Uuid16(_) => 2
    case Uuid32(_) => 16
    case Uuid128(_) => 16
    case Unspec => 0
  }

  /** What `bt_uuid_to_le` returns and leaves in the caller's buffer. */
  datatype LeResult = LeResult(rc: int, buffer: seq<uint8>)

  /** `bt_uuid_to_le(src, dst)`: writes the little-endian encoding of `src`
      at the front of `dst` and returns 0; for an unspecified UUID it writes
      nothing and returns -EINVAL. Bytes past the encoding are untouched. */
  function ToLe(src: Uuid, dst: seq<uint8>): (r: LeResult)
    requires WireLength(src) <= |dst|
    ensures |r.buffer| == |dst|
    ensures r.buffer[WireLength(src)..] == dst[WireLength(src)..]
    ensures r.rc == (if src.Unspec? then -EINVAL else 0)
    ensures src.Unspec? ==> r.buffer == dst
    ensures src.Uuid16? ==> r.buffer[..2] == [src.value16 % 0x100, src.value16 / 0x100]
    ensures src.Uuid32? || src.Uuid128? ==> r.buffer[..16] == Reverse(Canonical(src))
  {
    match src
    case Uuid16(v) =>
      LeResult(0, LE16(v) + dst[2..])
    case Uuid32(v) =>
      var expanded := Uuid32ToUuid128(v);
      LeResult(0, Reverse(expanded.value128) + dst[16..])
    case Uuid128(bytes) =>
      LeResult(0, Reverse(bytes) + dst[16..])
    case Unspec =>
      LeResult(-EINVAL, dst)
  }
}
