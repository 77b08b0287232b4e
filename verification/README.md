# Bluetooth UUID canonicalisation, comparison and wire encoding

A Dafny model of BlueZ's `src/shared/uuid.c`. It handles Bluetooth UUIDs, which come
in four forms: 16-bit, 32-bit, 128-bit or unspecified (`bt_uuid_t` with tags
`BT_UUID16`, `BT_UUID32`, `BT_UUID128` and `BT_UUID_UNSPEC`). The file covers:

- expanding a short UUID into the Bluetooth Base UUID
  `00000000-0000-1000-8000-00805F9B34FB`, as the Bluetooth Core Specification
  defines in Vol 3, Part B, section 2.5.1. A 16-bit value goes big-endian at byte
  offset 2 and a 32-bit value goes big-endian at byte offset 0;
- building UUIDs of each width (`bt_uuid16_create`, `bt_uuid32_create`,
  `bt_uuid128_create`);
- comparing two UUIDs of any widths (`bt_uuid_cmp`). This is a `memcmp` of the two
  expanded 16-byte forms;
- writing the little-endian wire form (`bt_uuid_to_le`). That is 2 bytes for a
  16-bit UUID and the byte-reversed 16-byte expansion otherwise. An unspecified
  UUID is refused with `-EINVAL`.

Files:

- `byte_order.dfy`, module `ByteOrder`:
  - bytes and fixed-width integers as bounded `int`s;
  - the effects of `htons`, `htonl`, `put_le16` and `bswap_128` as byte sequences;
  - big- and little-endian readings of byte strings as integers;
  - `memcmp` as `LexCompare`.
- `uuid.dfy`, module `Uuid`:
  - the `Uuid` datatype, the base UUID and its offsets;
  - the operations of `uuid.c`.
- `uuid_properties.dfy`, module `UuidProperties`. It holds reference definitions and
  the lemmas that connect the operations to them:
  - `SpecValue` is the core specification's formula `v * 2^96 + Base UUID`;
  - `ShortForm` is the narrowest UUID whose expansion is a given 16 bytes, the
    inverse of expansion;
  - `FromLe` is a decoder for the wire form.

C functions that write through an out-parameter are modelled as functions that
return the written value:

- `ToUuid128(src, dst)` returns the new contents of `dst`. For an unspecified
  `src`, `dst` keeps its old value.
- `ToLe(src, dst)` returns the return code together with the new contents of the
  caller's buffer. Bytes after the encoding keep their old values. The C function
  writes 2 or 16 bytes through an unsized `void *`, so the caller must pass a large
  enough buffer. The model states this as `WireLength(src) <= |dst|`.
- The `create` functions are methods that return `0` and the built UUID.

## Model

| member | source | states |
|---|---|---|
| `Uuid.Uuid16ToUuid128` | src/shared/uuid.c:38-52 | the result is tagged 128-bit; bytes 2 and 3 are the high and low byte of the value; the other 14 bytes are the base UUID's |
| `Uuid.Uuid32ToUuid128` | src/shared/uuid.c:54-68 | the result is tagged 128-bit; bytes 0-3 read big-endian are the value; bytes 4-15 are the base UUID's |
| `Uuid.ToUuid128` | src/shared/uuid.c:70-86 | a 128-bit UUID is copied unchanged; every UUID with a width becomes tagged 128-bit; for an unspecified UUID the destination keeps its previous value |
| `Uuid.Canonical` | src/shared/uuid.c:70-86 | the 16 bytes a UUID expands to: the stored bytes for a 128-bit UUID; for either short width, bytes 4-15 of the base UUID at the end |
| `Uuid.Uuid16Create` | src/shared/uuid.c:88-95 | returns 0 and a UUID tagged 16-bit that holds exactly the given value |
| `Uuid.Uuid32Create` | src/shared/uuid.c:97-104 | returns 0 and a UUID tagged 32-bit that holds exactly the given value |
| `Uuid.Uuid128Create` | src/shared/uuid.c:106-113 | returns 0 and a UUID tagged 128-bit that holds exactly the given 16 bytes |
| `Uuid.Compare` | src/shared/uuid.c:114-122 | the result is -1, 0 or 1, and is 0 exactly when the two expansions are equal byte for byte |
| `Uuid.ToLe` | src/shared/uuid.c:124-144 | 16-bit UUID: returns 0 and writes `[v & 0xFF, v >> 8]`; 32-bit and 128-bit UUIDs: returns 0 and writes the reverse of the 16-byte expansion; unspecified UUID: returns -EINVAL and the buffer is unchanged; bytes after the written ones are never touched |
| `ByteOrder.BE16` | src/shared/uuid.c:50-51 | the two bytes stored from `htons(v)`, read big-endian, are `v` |
| `ByteOrder.BE32` | src/shared/uuid.c:66-67 | the four bytes stored from `htonl(v)`, read big-endian, are `v` |
| `ByteOrder.LE16` | src/shared/uuid.c:130 | the two bytes `put_le16` writes, read little-endian, are `v` |
| `ByteOrder.Reverse` | src/shared/uuid.c:137-138 | `bswap_128` output: same length, and byte `i` is input byte `15 - i` |
| `ByteOrder.Overwrite` | src/shared/uuid.c:51 | the `memcpy` of a chunk into a buffer at an offset: the length is kept, the bytes at the offset are the chunk, every other byte is unchanged |
| `ByteOrder.LE16IsReversedBE16` | src/shared/uuid.c:129-131 | the endianness flip: the two bytes `put_le16` writes are the reverse of the two bytes `htons` stores |
| `ByteOrder.LexCompare` | src/shared/uuid.c:121 | `memcmp` on equal-length buffers: -1, 0 or 1, and 0 exactly when the buffers are equal |
| `ByteOrder.LexCompareFirstDifference` | src/shared/uuid.c:121 | `memcmp` is negative exactly when, at the first differing position, the first buffer's byte is smaller |
| `ByteOrder.LexCompareIsNumericOrder` | src/shared/uuid.c:121 | `memcmp` of equal-length buffers has the sign of the difference of the integers they denote big-endian |
| `ByteOrder.LEValueOfReverse` | src/shared/uuid.c:137-138 | the byte-swapped buffer read little-endian is the same integer as the original read big-endian |
| `ByteOrder.BE32OfShort` | src/shared/uuid.c:66-67 | a 32-bit value starts with two zero bytes exactly when it is below 2^16; it is then two zero bytes followed by the 16-bit big-endian bytes |
| `UuidProperties.BaseUuidValueMatches` | src/shared/uuid.c:30-33 | the base UUID constant is the integer 0x0000000000001000800000805F9B34FB; its top 32 bits are zero |
| `UuidProperties.Uuid16Layout` | src/shared/uuid.c:38-52 | all 16 bytes of a 16-bit expansion: two zero bytes, the value's big-endian bytes, then bytes 4-15 of the base UUID |
| `UuidProperties.Uuid32Layout` | src/shared/uuid.c:54-68 | all 16 bytes of a 32-bit expansion: the value's four big-endian bytes, then bytes 4-15 of the base UUID |
| `UuidProperties.ToUuid128Idempotent` | src/shared/uuid.c:70-86 | expanding an expansion gives it back unchanged; the expansion is `Uuid128` of the canonical bytes, whatever the destination held before |
| `UuidProperties.Uuid32AgreesWithUuid16` | src/shared/uuid.c:30-68 | a 32-bit UUID and a 16-bit UUID have the same expansion if and only if their values are equal |
| `UuidProperties.CanonicalIsSpecValue` | src/shared/uuid.c:30-86 | the expansion read big-endian is `v * 2^96 + BaseUuid` for a short UUID of value `v`, and the stored integer for a 128-bit UUID |
| `UuidProperties.ShortFormExpands` | src/shared/uuid.c:38-68 | every 16-byte value is the expansion of its narrowest UUID |
| `UuidProperties.ShortFormOf16` | src/shared/uuid.c:38-52 | the narrowest UUID for a 16-bit UUID's expansion is that 16-bit UUID |
| `UuidProperties.ShortFormOf32` | src/shared/uuid.c:54-68 | the narrowest UUID for a 32-bit UUID's expansion is that 32-bit UUID, or the 16-bit UUID of the same value when the value fits in 16 bits |
| `UuidProperties.CanonicalInjectiveOnShort` | src/shared/uuid.c:38-68 | two UUIDs of the same short width have the same expansion if and only if they are equal |
| `UuidProperties.CompareIsNumericOrder` | src/shared/uuid.c:114-122 | `bt_uuid_cmp` has the sign of the difference of the two UUIDs' 128-bit values by the core specification's formula |
| `UuidProperties.CompareShortByValue` | src/shared/uuid.c:114-122 | between 16-bit and 32-bit UUIDs, of the same or different widths, `bt_uuid_cmp` has the sign of the difference of their values |
| `UuidProperties.CompareFirstDifference` | src/shared/uuid.c:114-122 | `bt_uuid_cmp` is negative exactly when the first differing byte of the expansions is smaller in the first operand |
| `UuidProperties.CompareAntisymmetric` | src/shared/uuid.c:114-122 | swapping the operands negates the result |
| `UuidProperties.CompareTransitive` | src/shared/uuid.c:114-122 | the order is transitive, both non-strict (`<= 0`) and strict (`< 0`) |
| `UuidProperties.CompareAcrossWidths` | src/shared/uuid.c:114-122 | a UUID compares equal to itself and to the 128-bit UUID it expands to; a 32-bit UUID and a 16-bit UUID compare equal if and only if their values are equal |
| `UuidProperties.ToLeEncodesValue` | src/shared/uuid.c:124-139 | the written bytes read little-endian are the 16-bit value, or the 128-bit value of the expansion for wider UUIDs |
| `UuidProperties.ToLeRoundTrip` | src/shared/uuid.c:124-139 | decoding the written bytes gives back a 16-bit or 128-bit UUID exactly, and a 32-bit UUID's 128-bit expansion; the decoded UUID always compares equal to the original |
| `UuidProperties.ToLeWritesWireLength` | src/shared/uuid.c:124-143 | exactly `WireLength` bytes are written (2 for a 16-bit UUID, 16 for 32-bit and 128-bit UUIDs, none for an unspecified one); they depend only on the UUID and not on the buffer's earlier contents; the rest of the buffer is unchanged |
| `UuidProperties.SerialPortCompareExample` | src/shared/uuid.c:114-122 | the 16-bit UUID 0x1101 compares equal to 00001101-0000-1000-8000-00805F9B34FB |
| `UuidProperties.SerialPortWireExample` | src/shared/uuid.c:129-131 | the 16-bit UUID 0x1101 is written as the bytes 0x01 0x11 and 0 is returned |
| `UuidProperties.BaseUuidWireExample` | src/shared/uuid.c:136-139 | the base UUID is written as its 16 bytes in reverse order |
| `UuidProperties.UnspecWireExample` | src/shared/uuid.c:140-143 | an unspecified UUID gives -EINVAL and the buffer keeps its contents |

## Left out

- `src/shared/bluetooth-definitions.h` and `src/shared/l2cap-definitions.h` are not
  part of this model. They hold only protocol constants and struct layouts
  (`bdaddr_t`, `sockaddr_l2`, `l2cap_options`), with no behaviour.
- `htons`, `htonl`, `put_le16` and `bswap_128` come from headers that are not part of
  this model. Their byte-level effects are written directly as `BE16`, `BE32`, `LE16`
  and `Reverse`. The host byte order of the stored 16- and 32-bit fields does not
  matter, because those fields are modelled as integers.
- The `memset` zero-fill in the create functions and the aliasing of the
  `u16`/`u32`/`u128` union members are left out. Each `Uuid` constructor carries
  only its own payload, so no stale bytes can exist.
- The `default:` branches for tag values outside the four named ones are left out.
  The datatype has exactly four tags.
- Uuid.Canonical: requires a UUID with a width. For `BT_UUID_UNSPEC`,
  `bt_uuid_to_uuid128` writes nothing, and that case is modelled by `ToUuid128`
  keeping `dst`.
- Uuid.Compare: requires both operands to have a width. For an unspecified operand
  `bt_uuid_cmp` compares an uninitialised stack buffer, and its result is not
  defined.
- Uuid.Compare: returns only the sign of `memcmp`, as -1, 0 or 1. The C standard
  specifies nothing about the magnitude.
- Uuid.ToUuid128: `src` and `dst` are taken to be separate objects. If a caller
  passes the same `bt_uuid_t` for both, C first overwrites the union with the base
  UUID (lines 42 and 58) and only then reads `src->value.u16` or `src->value.u32`
  (lines 50 and 66). A 16-bit or 32-bit UUID then expands in place to the bare base
  UUID. The model does not describe that call.
- Uuid.ToLe: the output buffer is taken not to overlap `src`. If it overlaps the
  stored 128 bits, `bswap_128` (line 138) reads bytes it has already written, and
  the result is not the reversal. The model does not describe that call. For a
  32-bit UUID the bytes are swapped out of a local copy (lines 133-134).
- `SpecValue`, `ShortForm`, `ShortValue`, `FromLe` and `WireLength` are reference definitions that
  state what the operations mean. `uuid.c` has no counterpart for them.
