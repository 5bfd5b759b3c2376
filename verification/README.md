# HomePlug Green PHY management-message codec, in Dafny

A model of the codec in `src/hpgp.c` that builds and inspects HomePlug Green
PHY management messages (MMEs), the messages ISO 15118-3 uses for SLAC
matching between an electric vehicle and a charging station. It has two parts.

- `code_mapper.dfy`, module `CodeMapper` (pure): the map from a message kind
  (discover-list, encrypted payload, set-key, get-key, bridge info, network
  info, HFID, network stats, SLAC parameters, start-atten-char, atten-char,
  PKCS certificate, MNBC sound, validate, SLAC match, SLAC user data,
  attenuation profile; ordinals 0..16, `Max` = 17) to its 16-bit MMTYPE
  base code, the reverse map, and the variant (request, confirm,
  indication, response) held in the two low bits. The MMTYPE has the
  category in bits 15-13 and the function offset in bits 12-2. The forward
  map tests its thresholds 0x19, 0x12, 0x10, 0x0E and 0x08 highest first.
  Discover-list is the one kind in the station-to-coordinator category, at
  offset 5. The reverse map only looks at the two categories the forward
  map produces, and it does not validate. In the station-to-station
  category offset 0 gives discover-list, and a gap offset decodes as if its
  range had no gaps, counting on from the range's first kind (offset 0x0D
  gives start-atten-char, whose own offset is 0x1A). Offsets from 0x22 up
  give values from `Max` up to 2030.
  Kinds and codes are 16-bit values, the width the source computes in.
  The base codes are proved equal to the values the HomePlug Green PHY
  specification assigns (0x0014, 0x6004 ... 0x6084).
- `frame_packer.dfy`, module `FramePacker` (imperative): `Pack` writes a
  frame into the first `bufsize` bytes of an `array<bv8>`. It zeroes them,
  writes version 1, the MMTYPE and two zero fragmentation bytes (a 5-byte
  header), then runs the routine that the variant's dispatch table holds
  for the kind. Each such routine copies `min(struct size, bufsize - 5)`
  payload bytes to offset 5, or copies nothing (`pack_nothing`). The
  length returned counts payload only. A nonzero length below 41 is
  reported as 41, because 46 = 60 - 14 is the IEEE 802.3 minimum frame
  (without FCS) less the Ethernet header. The four tables are literal
  sequences with one entry per kind. Each payload struct's size is the sum
  of its field widths from `include/hpgp_mme.h`: set-key request 38, SLAC
  parameter request 11 and confirm 27, SLAC match request 66 and confirm
  90, start-atten-char indication 19, atten-char indication 110 and
  response 51, MNBC sound indication 52. The four public wrappers fix the
  variant. `FrameKind` and `FrameVariant` inspect a received frame.

Byte order: the C source stores the 16-bit MMTYPE in host order. The model
fixes little-endian order, so byte 1 holds the low byte and byte 2 the high
byte.

The code guards neither the kind nor the buffer size: `pack` indexes the
table with any kind (src/hpgp.c:292) and writes the 5-byte header into any
buffer. Both are preconditions of `Pack` here (`kind < Max`,
`bufsize >= 5`). The guard on the buffer size that the code does attempt
fails; see Findings.

## Model

| member | source | states |
|---|---|---|
| `CodeMapper.Variant.Bits` | include/hpgp.h:27-32 | each variant's enum value fits in the two low bits of a code |
| `CodeMapper.OffsetOf` | src/hpgp.c:56-69 | discover-list sits at offset 5; every other kind at an offset between 1 and 0x21 that is not one of the unused gap offsets |
| `CodeMapper.MmCode` | src/hpgp.c:49-72 | base codes have the variant bits clear; a value that is not a kind gives 0; discover-list is in category station-to-coordinator, every other kind in station-to-station, at its piecewise offset |
| `CodeMapper.MmKind` | src/hpgp.c:74-113 | results never exceed 2030; a kind below Max only comes from the two produced categories, and every other category (proxy, CCo-CCo, manufacturer, vendor, 6, 7) gives exactly the sentinel Max; in station-to-coordinator only offset 5 is recognised, anything else is the sentinel; in station-to-station the result is a kind exactly when the offset is at most 0x21, and offset 0 gives discover-list |
| `CodeMapper.VariantOf` | src/hpgp.c:330-334 | the variant read from a code is the one whose bits are the code's two low bits, so every code carries one of the four variants |
| `CodeMapper.Encode` | src/hpgp.c:290 | or-ing in the variant keeps the variant recoverable and leaves the base code in the upper 14 bits |
| `CodeMapper.MmCodeMatchesStandard` | src/hpgp.c:49-72 | the base code of every kind equals the code the HomePlug Green PHY specification assigns to it |
| `CodeMapper.EncodeFields` | src/hpgp.c:76-78 | the variant bits do not disturb the category or the offset a code is read with |
| `CodeMapper.RoundTrip` | src/hpgp.c:49-113 | for every kind and variant, decoding the encoded code gives back the kind and the variant |
| `CodeMapper.MmCodeInjective` | src/hpgp.c:49-72 | distinct kinds have distinct base codes |
| `CodeMapper.MmCodeIncreasing` | src/hpgp.c:59-71 | after discover-list, base codes strictly increase with the kind's ordinal |
| `CodeMapper.UnmappedKind` | src/hpgp.c:54-85 | a value that is not a kind maps to code 0, and code 0 with any variant bits maps back to the sentinel |
| `CodeMapper.DecodeExactOnWireCodes` | src/hpgp.c:74-113 | a code re-encodes from its decoded kind and variant if and only if some kind and variant encode to it |
| `CodeMapper.StandardCodesAreWire` | src/hpgp.c:49-113 | a code whose upper 14 bits are the standard code of a kind is produced, whatever its variant bits, and decodes to that kind |
| `CodeMapper.WireCodesAreStandard` | src/hpgp.c:49-72 | every produced code has one of the standard codes in its upper 14 bits |
| `CodeMapper.GapOffsetsAlias` | src/hpgp.c:86-98 | a station-to-station code at an unused offset still decodes to a kind, but to one whose code differs, so it is not a produced code |
| `CodeMapper.GapDecodes` | src/hpgp.c:86-98 | offset 0x0D decodes to start-atten-char (own offset 0x1A), offset 5 to network info (own offset 0x0E), offset 0x18 to validate (own offset 0x1E), and offset 0x23 to 18, a value above Max |
| `FramePacker.ReadCodeBytes` | src/hpgp.c:325-334 | the MMTYPE read from a frame has byte 1 as its low byte and byte 2 as its high byte |
| `FramePacker.FrameKind` | src/hpgp.c:325-328 | for every frame carrying a produced code, the kind and variant read back re-encode to that code; a recognised kind only comes from the two produced categories, and a frame of any other category gives exactly the sentinel Max |
| `FramePacker.FrameVariant` | src/hpgp.c:330-334 | the variant of a frame is the two low bits of its first MMTYPE byte (little-endian storage) |
| `FramePacker.Table` | src/hpgp.c:193-277 | every table entry that copies anything copies the struct of that entry's own kind and variant |
| `FramePacker.EveryRoutineTabled` | src/hpgp.c:193-271 | each copying routine sits in its variant's table at its kind's index |
| `FramePacker.TablesHaveMaxEntries` | src/hpgp.c:193-277 | each of the four dispatch tables has exactly one entry per kind |
| `FramePacker.PackRoutine.StructSize` | include/hpgp_mme.h:23-201 | a routine copies a nonempty struct exactly when it is not pack_nothing |
| `FramePacker.StructSizesAsDeclared` | include/hpgp_mme.h:23-201 | the packed structs are 38 (set-key request), 11 and 27 (SLAC parameter request, confirm), 66 and 90 (SLAC match request, confirm), 19 (start-atten-char indication), 52 (MNBC sound indication), 110 and 51 (atten-char indication, response) bytes long |
| `FramePacker.PayloadSize` | src/hpgp.c:130-271 | a pair carries payload exactly when its table entry is not pack_nothing |
| `FramePacker.CopyLength` | src/hpgp.c:130-191 | the bytes copied are the whole struct or all the room there is, whichever is less, never more than either |
| `FramePacker.PaddedLength` | src/hpgp.c:294-296 | the reported length is 0 exactly when nothing was copied, is never below the copied length, reaches the 46-byte minimum with the header whenever something was copied, and differs from the copied length only when raised to exactly that minimum |
| `FramePacker.ReportedLength` | src/hpgp.c:287-298 | the value pack returns is 0 or reaches the 46-byte minimum with the header; it is the padded minimum, the whole struct, or all the room the buffer had, and exceeds the struct only when padded |
| `FramePacker.MaxLenAsWritten` | src/hpgp.c:287 | the room computed as written, in 64-bit size_t arithmetic, never exceeds the buffer size |
| `FramePacker.MaxLenAsWrittenOverruns` | src/hpgp.c:286-290 | for a buffer of 1 to 4 bytes the computed room is the whole buffer, so the copy at offset 5 would run past its end |
| `FramePacker.MaxLen` | src/hpgp.c:287 | the room for payload exists exactly when the buffer holds the header, and header plus room is the buffer size |
| `FramePacker.MaxLenAgrees` | src/hpgp.c:287 | for buffers that hold the header, the corrected room equals the room as written |
| `FramePacker.PackedHeader` | src/hpgp.c:284-292 | a packed frame starts with version 1, the MMTYPE low byte first, and two zero fragmentation bytes |
| `FramePacker.PackedImage` | src/hpgp.c:284-292 | the image of a packed buffer is bufsize bytes long: version 1, the MMTYPE low byte first, two zero fragmentation bytes, the first n payload bytes for the copied length n, then zeros |
| `FramePacker.PackedIsImage` | src/hpgp.c:284-292 | below bufsize a packed frame is exactly the 5 header bytes, the copied payload prefix and zeros up to bufsize |
| `FramePacker.PackedExists` | src/hpgp.c:280-299 | every input pack accepts has a frame in the packed state, so the postcondition of `Pack` can always be met |
| `FramePacker.PackedInspects` | src/hpgp.c:325-334 | inspecting a packed frame gives back the kind and variant it was packed with |
| `FramePacker.PackedDeterministic` | src/hpgp.c:289-292 | the packed bytes below bufsize depend only on the inputs, so no stale byte of the buffer survives |
| `FramePacker.SetKeyRequestInto128` | src/hpgp.c:301-305 | a set-key request packed into 128 bytes starts 1, 0x08, 0x60, carries the 38-byte struct whole, and is reported as 41 bytes long |
| `FramePacker.EmptyOnlyWithoutPayload` | src/hpgp.c:115-122 | the reported length is 0 exactly for pairs without a payload struct or a buffer with no room after the header; an empty payload is never padded |
| `FramePacker.PaddedPastShortBuffer` | src/hpgp.c:287-298 | in a buffer shorter than 46 bytes a payload is reported at 41 bytes, more than the buffer had room for |
| `FramePacker.Memset` | src/hpgp.c:289 | the given range is zero and every other byte of the buffer is unchanged |
| `FramePacker.SetMmver` | src/hpgp.c:21-24 | byte 0 holds the version and nothing else changes |
| `FramePacker.SetMmtype` | src/hpgp.c:26-29 | bytes 1 and 2 hold the MMTYPE low byte first, reading the field back gives the MMTYPE, and nothing else changes |
| `FramePacker.SetFmi` | src/hpgp.c:31-35 | bytes 3 and 4 are zero and nothing else changes |
| `FramePacker.SetHeader` | src/hpgp.c:37-47 | the header holds version 1, the MMTYPE and two zero fragmentation bytes; the payload area is unchanged |
| `FramePacker.Copy` | src/hpgp.c:124-128 | the destination range holds the first len source bytes, len is returned, and nothing outside the range changes |
| `FramePacker.RunRoutine` | src/hpgp.c:115-191 | a table routine copies min(struct size, room) payload bytes to offset 5 and returns that count; pack_nothing copies and returns nothing |
| `FramePacker.Pack` | src/hpgp.c:280-299 | the first bufsize bytes form the packed frame, the bytes from bufsize on are untouched, and the returned length is the padded copied length |
| `FramePacker.PackRequest` | src/hpgp.c:301-305 | as Pack, with the request variant |
| `FramePacker.PackConfirm` | src/hpgp.c:307-311 | as Pack, with the confirm variant |
| `FramePacker.PackIndication` | src/hpgp.c:313-317 | as Pack, with the indication variant |
| `FramePacker.PackResponse` | src/hpgp.c:319-323 | as Pack, with the response variant |

## Findings

| source | as written | input that shows it | evidently intended | confidence | as-written member | corrected member |
|---|---|---|---|---|---|---|
| src/hpgp.c:287 | `maxlen = MIN(bufsize, bufsize - frame_header_len)` in size_t | bufsize = 3: 3 - 5 wraps to 2^64 - 2, so MIN gives 3; set_header has already written 5 bytes, and a payload would be copied to bytes 5..7 of a 3-byte buffer | a buffer shorter than the 5-byte header is refused, and the room is bufsize - 5 otherwise | high (not executed) | `FramePacker.MaxLenAsWrittenOverruns` | `FramePacker.MaxLen` |

`Pack` computes its room with `MaxLen` and requires `bufsize >= 5`, which
matches the corrected guard.

## Left out

- Host byte order: the MMTYPE is stored little-endian. A big-endian host would store it the other way round.
- Struct aliasing and pointer casts: the frame, its MME header and the payload are offsets into one byte array.
- Enumeration values outside 0..0xFFFF: kinds are 16-bit. Values of 2^16 and up map to code 0 like every other value past Max. Negative enum values are not modelled.
- `pack` with a kind at or past Max reads past the end of the table, and a buffer smaller than 5 bytes is overrun. Both are undefined behaviour, so `Pack` and the four wrappers exclude them with preconditions.
- Payload field meaning: nonces, keys, MAC addresses, run ids, certificates and the flexible tails (`ciphersuite[]`, `aag[]`, `cert[]`) are opaque bytes. Only the fixed struct sizes are modelled. The payload is a byte sequence at least as long as the struct of its (kind, variant) pair, which is the caller's side of the C contract.
- Function pointers: the tables are sequences indexed by the kind. The `_Static_assert`s become `TablesHaveMaxEntries`, which covers the response table too, although the source has no static assertion for it.
- Structs declared in `include/hpgp_mme.h` that no table uses (set-key confirm, get-key, PKCS certificate, validate, attenuation profile) are never packed and are not modelled. Neither are `hpgp_rc_t` and the unions in `include/hpgp.h`, which the code does not use.
- No I/O, concurrency or floating point occurs in this code. The Ethernet transport that sends the frames is not part of this model.
