# IMU frame codec

A model of the binary IMU frame of the RailTuner2 library (`IMU_FRAME` in
`src/RailTuner2/RailTuner2.h`). The struct is declared under
`#pragma pack(push, 1)` and is, byte for byte, the frame the IMU transmits:

| bytes | field(s) |
|---|---|
| 0, 1 | `hdr1` = 0x99, `hdr2` = 0x66 |
| 2 | `ucLen`, the payload length (96) |
| 3, 7 | `uiImuOpeTime`, `uiUtc` (`unsigned int`) |
| 11..22 | `iGyro.all[3]` / `iGyro.{x,y,z}` (`int`) |
| 23..34 | `iAcc.all[3]` / `iAcc.{x,y,z}` (`int`) |
| 35..40 | `sTempr.all[3]` / `sTempr.{x,y,z}` (`short`) |
| 41, 43 | `usOpeSts`, `usAlgoSts` (`unsigned short`) |
| 45, 49, 53, 57 | `iLatGps`, `iLonGps`, `iHgtGps`, `iOdo` (`int`) |
| 61 | `usSensorSts` (`unsigned short`) |
| 63..98 | nine `float` fields, `fDistN` .. `fPitch` |
| 99 | `ucChkSum`, low 8 bits of the sum of bytes 2..98 |

These offsets assume the type sizes of the usual targets (`CType.Width`):
`unsigned char` is 1 byte, `short` and `unsigned short` are 2, and `int`,
`unsigned int` and `float` are 4. Only with these sizes is the packed
struct 100 bytes with a 96-byte payload, as `ucLen` requires.

Modules:

- `Bytes`: bytes, the byte order of multi-byte fields, unsigned words.
- `CTypes`: the C scalar types of the struct (`unsigned char`, `unsigned
  short`, `short`, `unsigned int`, `int`, `float`), their widths and ranges,
  and two's complement reading and writing of one field.
- `Vectors`: `Vec3`, the `union { T all[3]; struct { T x, y, z; }; }`
  triples, with both views.
- `Packed`: fields of a packed struct laid end to end, with no padding.
  It covers their offsets and the decoding and encoding of all fields.
- `ImuFrame`: the frame layout, the checksum, the validator, the
  decoder/encoder into the `ImuRecord` datatype, and their properties.
- `Scale`: the documented fixed-point scale factors as exact `real`
  division.

The validator checks, in order: the size (100 bytes), the two header
bytes, the length byte and then the checksum. It names the first check
that fails. The checksum is computed the way an 8-bit accumulator does
it, keeping the low 8 bits after every addition (`RunningSum`). It is
proved equal to the whole sum taken mod 256.

## Model

| member | source | states |
|---|---|---|
| ImuFrame.PayloadOffsets | src/RailTuner2/RailTuner2.h:73-256 | with `pack(1)` the 27 payload fields sit at consecutive offsets in declaration order: 3, 7, 11, ..., 91, 95 |
| ImuFrame.LayoutSizes | src/RailTuner2/RailTuner2.h:90-94 | the payload is 96 bytes, the struct 100, and `ucLen` = frame size − 4 (itself, two header bytes and the checksum excluded) |
| ImuFrame.ChecksumIsLastByte | src/RailTuner2/RailTuner2.h:250-256 | the checksum is the last byte of the struct (offset 99); the header bytes and `ucLen` are bytes 0, 1, 2 |
| ImuFrame.LayoutByName | src/RailTuner2/RailTuner2.h:95-249 | the payload fields, in declaration order, are 2 `unsigned int`, 6 `int`, 3 `short`, 2 `unsigned short`, 4 `int`, 1 `unsigned short` and 9 `float` |
| ImuFrame.InertialPlaces | src/RailTuner2/RailTuner2.h:95-179 | fields 0..12 (`uiImuOpeTime` .. `usAlgoSts`), one by one, have their declared C type and frame offset 3, 7, 11, ..., 43 |
| ImuFrame.GpsOdoPlaces | src/RailTuner2/RailTuner2.h:180-204 | `iLatGps`, `iLonGps`, `iHgtGps`, `iOdo` are `int`s at 45, 49, 53, 57 and `usSensorSts` an `unsigned short` at 61 |
| ImuFrame.NavPlaces | src/RailTuner2/RailTuner2.h:205-249 | the nine `float` fields `fDistN` .. `fPitch` sit at 63, 67, ..., 95 |
| ImuFrame.RunningSum | src/RailTuner2/RailTuner2.h:250-254 | an 8-bit accumulator over the bytes equals the full sum taken mod 256 |
| ImuFrame.Sum | src/RailTuner2/RailTuner2.h:250-254 | the plain byte sum the checksum is defined by; it is at most 255 per byte |
| ImuFrame.Checksum | src/RailTuner2/RailTuner2.h:250-254 | the checksum is the sum of bytes 2..98 (`ucLen` through the last payload byte) mod 256 |
| ImuFrame.WellFormed | src/RailTuner2/RailTuner2.h:73-256 | a well-formed frame is 100 bytes, has `ucLen` = 96 and the checksum of its bytes 2..98 in byte 99 (and the two header bytes) |
| ImuFrame.Validate | src/RailTuner2/RailTuner2.h:80-94 | passes exactly the well-formed frames; fails with WrongSize, BadHeader or BadLength exactly when that check is the first to fail |
| ImuFrame.Parse | src/RailTuner2/RailTuner2.h:73-256 | the record read from a 100-byte frame has, as its field values, the fields decoded from the payload bytes 3..98 |
| ImuFrame.Decode | src/RailTuner2/RailTuner2.h:73-256 | yields a record exactly for well-formed frames, otherwise the validator's error |
| ImuFrame.Encode | src/RailTuner2/RailTuner2.h:73-256 | an encoded record is a 100-byte well-formed frame (headers, `ucLen` = 96, recomputed checksum) |
| ImuFrame.DecodeEncode | src/RailTuner2/RailTuner2.h:73-256 | decoding an encoded record gives back the record |
| ImuFrame.EncodeDecode | src/RailTuner2/RailTuner2.h:73-256 | decoding a well-formed frame succeeds and re-encoding it reproduces every byte |
| ImuFrame.ReencodePayload | src/RailTuner2/RailTuner2.h:73-256 | re-encoding the fields parsed from a frame reproduces its payload bytes |
| ImuFrame.EncodeOfPayload | src/RailTuner2/RailTuner2.h:73-256 | a well-formed frame is determined by its payload: it is the encoding of any record whose fields encode to that payload |
| ImuFrame.CoveredBytes | src/RailTuner2/RailTuner2.h:250-254 | the bytes the checksum covers are `ucLen` followed by the payload |
| ImuFrame.SingleByteChangeRejected | src/RailTuner2/RailTuner2.h:80-94 | changing any one byte of a well-formed frame makes it ill-formed; the validator reports BadHeader, BadLength or BadChecksum by position |
| ImuFrame.ChecksumIgnoresHeaderAndItself | src/RailTuner2/RailTuner2.h:250-254 | the header bytes and the checksum byte do not enter the checksum |
| ImuFrame.SumUpdate | src/RailTuner2/RailTuner2.h:250-254 | replacing one byte changes the byte sum by exactly the difference |
| ImuFrame.ToValues | src/RailTuner2/RailTuner2.h:95-249 | the 27 payload fields of a record, each within its declared C type |
| ImuFrame.ValuesByName | src/RailTuner2/RailTuner2.h:95-249 | the field values of a record list `uiImuOpeTime`, `uiUtc`, `iGyro.x` ... `fPitch` by name in declaration order |
| ImuFrame.FromValues | src/RailTuner2/RailTuner2.h:95-249 | the record built from values conforming to the payload layout has exactly those field values |
| ImuFrame.FromValuesToValues | src/RailTuner2/RailTuner2.h:95-249 | the record rebuilt from its field values is the record |
| ImuFrame.GroupsConform | src/RailTuner2/RailTuner2.h:95-249 | the field groups, each within its declared types, together fit the payload layout |
| ImuFrame.PayloadFieldBytes | src/RailTuner2/RailTuner2.h:73-78 | payload field `i` occupies the bytes at its offset in the frame, within the payload |
| ImuFrame.ParseFieldAt | src/RailTuner2/RailTuner2.h:95-249 | payload field `i` is decoded from exactly the `Width()` bytes at its frame offset |
| ImuFrame.DecodedFieldInFrame | src/RailTuner2/RailTuner2.h:73-249 | decoded field `i` is the value of its declared type in the bytes at its offset in the frame, within the payload |
| ImuFrame.DecodedAt | src/RailTuner2/RailTuner2.h:73-249 | a field of type `ty` at frame offset `off` is decoded from the `ty.Width()` bytes at `off` |
| ImuFrame.ParseFields | src/RailTuner2/RailTuner2.h:95-249 | the parsed record holds decoded value `i` in the field declared `i`-th (`x`, `y`, `z` for the triples) |
| ImuFrame.DecodedTime | src/RailTuner2/RailTuner2.h:95-104 | `uiImuOpeTime` and `uiUtc` are the `unsigned int`s at frame bytes 3..6 and 7..10 |
| ImuFrame.DecodedGyro | src/RailTuner2/RailTuner2.h:105-126 | `iGyro` is the three `int`s at frame bytes 11..22 |
| ImuFrame.DecodedAcc | src/RailTuner2/RailTuner2.h:127-148 | `iAcc` is the three `int`s at frame bytes 23..34 |
| ImuFrame.DecodedTempr | src/RailTuner2/RailTuner2.h:149-169 | `sTempr` is the three `short`s at frame bytes 35..40 |
| ImuFrame.DecodedStatus | src/RailTuner2/RailTuner2.h:170-179 | `usOpeSts` and `usAlgoSts` are the `unsigned short`s at frame bytes 41..42 and 43..44 |
| ImuFrame.DecodedGpsOdo | src/RailTuner2/RailTuner2.h:180-199 | `iLatGps`, `iLonGps`, `iHgtGps`, `iOdo` are the `int`s at frame bytes 45, 49, 53, 57 (4 bytes each) |
| ImuFrame.DecodedSensor | src/RailTuner2/RailTuner2.h:200-204 | `usSensorSts` is the `unsigned short` at frame bytes 61..62 |
| ImuFrame.DecodedDistance | src/RailTuner2/RailTuner2.h:205-219 | `fDistN`, `fDistU`, `fDistE` are the `float`s at frame bytes 63, 67, 71 |
| ImuFrame.DecodedVelocity | src/RailTuner2/RailTuner2.h:220-234 | `fVelN`, `fVelU`, `fVelE` are the `float`s at frame bytes 75, 79, 83 |
| ImuFrame.DecodedAttitude | src/RailTuner2/RailTuner2.h:235-249 | `fRoll`, `fHdg`, `fPitch` are the `float`s at frame bytes 87, 91, 95 |
| ImuFrame.ParseByName | src/RailTuner2/RailTuner2.h:95-249 | the parsed record equals the record read field by field under each name from its own bytes (`iLatGps` from 45..48, `iLonGps` from 49..52, ...) |
| ImuFrame.GyroInFrame | src/RailTuner2/RailTuner2.h:110-126 | the decoded `iGyro.all[k]` is the `int` at frame bytes 11 + 4k .. 14 + 4k |
| ImuFrame.AccInFrame | src/RailTuner2/RailTuner2.h:132-148 | the decoded `iAcc.all[k]` is the `int` at frame bytes 23 + 4k .. 26 + 4k |
| ImuFrame.TemprInFrame | src/RailTuner2/RailTuner2.h:153-169 | the decoded `sTempr.all[k]` is the `short` at frame bytes 35 + 2k .. 36 + 2k |
| Packed.EncodeFields | src/RailTuner2/RailTuner2.h:73-78 | writing the fields end to end takes the struct's size, and reading them back gives the values |
| Packed.EncodeFieldsDecodeFields | src/RailTuner2/RailTuner2.h:73-78 | re-encoding the decoded fields reproduces the bytes |
| Packed.TotalWidthAppend | src/RailTuner2/RailTuner2.h:73-78 | the size of two packed field runs laid end to end is the sum of their sizes |
| Packed.ConformsEach | src/RailTuner2/RailTuner2.h:95-249 | values conform to a layout iff there is one per field and each is within its field's type |
| Packed.ConformsAppend | src/RailTuner2/RailTuner2.h:95-249 | conforming groups concatenate to values conforming to the concatenated layout |
| Packed.DecodeFields | src/RailTuner2/RailTuner2.h:73-78 | reading a packed run of fields yields one value per field, each within its declared type |
| Packed.FieldWithinStruct | src/RailTuner2/RailTuner2.h:73-78 | every field ends within the struct and the next starts right after it |
| Packed.OffsetsAppend | src/RailTuner2/RailTuner2.h:73-78 | the offsets of two field runs are those of the first, then those of the second shifted by the first's size |
| Packed.OffsetIsPrefixWidth | src/RailTuner2/RailTuner2.h:73-78 | field `i` starts after exactly the bytes of the fields before it (no padding) |
| Packed.LastFieldEndsStruct | src/RailTuner2/RailTuner2.h:73-78 | the last field ends where the struct ends |
| Packed.PrefixWidthAll | src/RailTuner2/RailTuner2.h:73-78 | the bytes before the end are the whole struct |
| Packed.FieldBytesAtOffset | src/RailTuner2/RailTuner2.h:73-78 | field `i`'s bytes are the slice at its offset |
| Packed.DecodeFieldAt | src/RailTuner2/RailTuner2.h:95-249 | decoded field `i` is read from its own bytes only |
| CTypes.DecodeValue | src/RailTuner2/RailTuner2.h:99-249 | a field read from its bytes lies within its declared C type |
| CTypes.EncodeValue | src/RailTuner2/RailTuner2.h:99-249 | a value of a field's type written to bytes reads back unchanged |
| CTypes.EncodeValueDecodeValue | src/RailTuner2/RailTuner2.h:99-249 | writing back a value read from bytes reproduces the bytes |
| CTypes.FromBits | src/RailTuner2/RailTuner2.h:115-158 | a bit pattern reads as the one value of the type congruent to it (two's complement for `short`/`int`) |
| CTypes.ToBits | src/RailTuner2/RailTuner2.h:115-158 | a value is stored as the one bit pattern congruent to it |
| CTypes.FromBitsToBits | src/RailTuner2/RailTuner2.h:115-158 | storing then reading a value gives it back |
| CTypes.ToBitsFromBits | src/RailTuner2/RailTuner2.h:115-158 | reading then storing a bit pattern gives it back |
| CTypes.HoldsIsDeclaredRange | src/RailTuner2/RailTuner2.h:99-249 | the field ranges are [0, 2^16), [-2^15, 2^15), [0, 2^32), [-2^31, 2^31), and 32-bit words for `float` |
| CTypes.CType.Modulus | src/RailTuner2/RailTuner2.h:99-249 | the number of bit patterns of each type is 256 to the power of its width |
| Bytes.FromLE | src/RailTuner2/RailTuner2.h:99-249 | a little-endian word of n bytes is below 256^n |
| Bytes.ToLE | src/RailTuner2/RailTuner2.h:99-249 | a number below 256^n written as n little-endian bytes reads back unchanged |
| Bytes.ToLEFromLE | src/RailTuner2/RailTuner2.h:99-249 | writing back a little-endian word reproduces its bytes |
| Bytes.Unsigned | src/RailTuner2/RailTuner2.h:99-249 | an n-byte word read in either byte order is below 256^n |
| Bytes.Reverse | src/RailTuner2/RailTuner2.h:99-249 | reversal maps byte i to byte n−1−i |
| Bytes.ReverseReverse | src/RailTuner2/RailTuner2.h:99-249 | reversing twice is the identity |
| Bytes.ToBytes | src/RailTuner2/RailTuner2.h:99-249 | a number written in either byte order reads back unchanged |
| Bytes.ToBytesUnsigned | src/RailTuner2/RailTuner2.h:99-249 | writing back a word read in either byte order reproduces its bytes |
| Vectors.Vec3.At | src/RailTuner2/RailTuner2.h:110-126 | `all[i]` is slot i of the array view |
| Vectors.Vec3.With | src/RailTuner2/RailTuner2.h:110-126 | a write to `all[i]` is read back and leaves the other two slots alone |
| Vectors.Vec3.Map | src/RailTuner2/RailTuner2.h:153-169 | applying a conversion to a triple applies it to each component |
| Vectors.FromAll | src/RailTuner2/RailTuner2.h:110-126 | the triple built from an array of three has that array view |
| Vectors.NamedIsIndexed | src/RailTuner2/RailTuner2.h:110-126 | `x`, `y`, `z` are `all[0]`, `all[1]`, `all[2]` |
| Vectors.FromAllAll | src/RailTuner2/RailTuner2.h:110-126 | a triple rebuilt from its array view is itself |
| Vectors.NamedWriteIsIndexedWrite | src/RailTuner2/RailTuner2.h:132-148 | a write to `x`, `y` or `z` is the write to `all[0]`, `all[1]` or `all[2]` |
| Scale.Degrees | src/RailTuner2/RailTuner2.h:180-189 | latitude or longitude × 11930400 is the raw count, and it lies within ±180.001 degrees |
| Scale.Height | src/RailTuner2/RailTuner2.h:190-194 | height × 131080 is the raw count, and it lies within ±16384 |
| Scale.Temperature | src/RailTuner2/RailTuner2.h:149-152 | temperature × 16 is the raw count, in [−2048, 2048) |
| Scale.Temperatures | src/RailTuner2/RailTuner2.h:149-169 | each component of the temperature triple × 16 is its raw count |
| Scale.ConversionsPreserveOrder | src/RailTuner2/RailTuner2.h:149-194 | each conversion is strictly increasing: raw order and physical order agree |

## Left out

- Byte order: the struct is overlaid on the received bytes in host
  order, and the header does not say which order that is. Every decoder
  and encoder therefore takes a `ByteOrder` parameter, and every property
  holds for both orders.
- Type sizes: the C standard fixes only lower bounds for `short` and
  `int`; the model assumes the 1/2/4-byte sizes stated above and does not
  model other targets.
- `float` fields: kept as raw 32-bit patterns (`Float32Bits`). Their units
  are undocumented and IEEE-754 arithmetic is not modelled.
- ImuFrame.Validate: the struct has a fixed size of 100 bytes. The model
  takes any byte sequence and adds a WrongSize error for other lengths.
  The header gives no order for the checks, so the model chooses size,
  headers, length byte, then checksum.
- ImuFrame.Validate: the BadChecksum case is stated only through
  `Pass <==> WellFormed` and the three other error iffs. It is the one
  remaining failure.
- `BaseTuner::CentralizeAndStandardize`, `PolyFit`, `CalcCurvature`:
  declarations without bodies, double-precision numerics.
- `RealTimeTuner` (`Dispatch`, `UpdateData`, `GetLastResult`,
  `ReleaseOutputBuffer`): declared only, with no state. Their purpose is a
  buffer handoff between threads (concurrency).
- `PostTuner::OpenFolder` and its file streams: file-system I/O.
- `TRACK_IRREGULARITIES`: output containers of floats; no computation is
  shown for them.
- `src/Laser/laser.h`: plain data structs and raw buffer pointers with no
  behaviour; it is not part of this model.
- `INPUT_FRAME`: an IMU frame next to the laser scanner frames. It is a
  plain container with no behaviour of its own; the laser frames are not
  part of this model.
