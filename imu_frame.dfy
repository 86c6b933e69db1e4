/** The IMU frame (`IMU_FRAME`): a packed struct that is byte for byte the
    frame the IMU transmits.

      offset  0, 1   header bytes 0x99, 0x66
      offset  2      ucLen, the number of payload bytes
      offset  3..98  payload: 27 fields, in declaration order, no padding
      offset 99      ucChkSum, low 8 bits of the sum of bytes 2..98

    Multi-byte fields are read in the byte order given as a parameter; the
    nine `float` fields are kept as raw 32-bit patterns. */
module ImuFrame {
  import opened Bytes
  import opened CTypes
  import opened Vectors
  import opened Packed

  const Header1: byte := 0x99
  const Header2: byte := 0x66
  const LenIndex: nat := 2
  const PayloadStart: nat := 3
  const ChecksumIndex: nat := 99
  const FrameSize: nat := 100

  /** The value of `ucLen` in every frame: the payload size. */
  const PayloadLen: byte := 96

  /** Declared types of the payload fields, `uiImuOpeTime` through
      `fPitch`, in groups. */
  const TimeFields: seq<CType> := [UInt, UInt]        // uiImuOpeTime, uiUtc
  const GyroFields: seq<CType> := [Int, Int, Int]     // iGyro.all
  const AccFields: seq<CType> := [Int, Int, Int]      // iAcc.all
  const TemprFields: seq<CType> := [Short, Short, Short]  // sTempr.all
  const StatusFields: seq<CType> := [UShort, UShort]  // usOpeSts, usAlgoSts
  const GpsOdoFields: seq<CType> := [Int, Int, Int, Int]  // iLatGps, iLonGps, iHgtGps, iOdo
  const SensorFields: seq<CType> := [UShort]          // usSensorSts
  /** fDistN, fDistU, fDistE, fVelN, fVelU, fVelE, fRoll, fHdg, fPitch */
  const NavFields: seq<CType> := [Float, Float, Float, Float, Float, Float, Float, Float, Float]

  /** The payload fields from each group to the end. */
  const FromSensor: seq<CType> := SensorFields + NavFields
  const FromGpsOdo: seq<CType> := GpsOdoFields + FromSensor
  const FromStatus: seq<CType> := StatusFields + FromGpsOdo
  const FromTempr: seq<CType> := TemprFields + FromStatus
  const FromAcc: seq<CType> := AccFields + FromTempr
  const FromGyro: seq<CType> := GyroFields + FromAcc

  const PayloadLayout: seq<CType> := TimeFields + FromGyro

  /** Declared types of the whole struct, `hdr1` through `ucChkSum`. */
  const FrameLayout: seq<CType> := [UChar, UChar, UChar] + PayloadLayout + [UChar]

  /** Offsets of the fields from each group to the end of the payload,
      built from the last group back to the first gyro field: each group
      puts its own offsets in front of those of the fields after it. */
  lemma FromSensorOffsets()
    ensures Offsets(FromSensor, 61) == [61] + [63, 67, 71, 75, 79, 83, 87, 91, 95]
  {
    OffsetsAppend(SensorFields, NavFields, 61);
  }

  lemma FromGpsOdoOffsets()
    ensures Offsets(FromGpsOdo, 45) == [45, 49, 53, 57] + ([61] + [63, 67, 71, 75, 79, 83, 87, 91, 95])
  {
    FromSensorOffsets();
    assert Offsets(GpsOdoFields, 45) == [45, 49, 53, 57] && TotalWidth(GpsOdoFields) == 16;
    OffsetsAppend(GpsOdoFields, FromSensor, 45);
  }

  lemma FromStatusOffsets()
    ensures Offsets(FromStatus, 41) == [41, 43] + ([45, 49, 53, 57] + ([61] + [63, 67, 71, 75, 79, 83, 87, 91, 95]))
  {
    FromGpsOdoOffsets();
    OffsetsAppend(StatusFields, FromGpsOdo, 41);
  }

  lemma FromTemprOffsets()
    ensures Offsets(FromTempr, 35) == [35, 37, 39] + ([41, 43] + ([45, 49, 53, 57] + ([61] + [63, 67, 71, 75, 79, 83, 87, 91, 95])))
  {
    FromStatusOffsets();
    OffsetsAppend(TemprFields, FromStatus, 35);
  }

  lemma FromAccOffsets()
    ensures Offsets(FromAcc, 23) == [23, 27, 31] + ([35, 37, 39] + ([41, 43] + ([45, 49, 53, 57] + ([61] + [63, 67, 71, 75, 79, 83, 87, 91, 95]))))
  {
    FromTemprOffsets();
    OffsetsAppend(AccFields, FromTempr, 23);
  }

  lemma FromGyroOffsets()
    ensures Offsets(FromGyro, 11) == [11, 15, 19] + ([23, 27, 31] + ([35, 37, 39] + ([41, 43] + ([45, 49, 53, 57] + ([61] + [63, 67, 71, 75, 79, 83, 87, 91, 95])))))
  {
    FromAccOffsets();
    OffsetsAppend(GyroFields, FromAcc, 11);
  }

  /** Offset in the frame of each payload field: with no padding every
      field sits right after the previous one. */
  lemma PayloadOffsets()
    ensures Offsets(PayloadLayout, PayloadStart) ==
      [3, 7] +                           // uiImuOpeTime, uiUtc
      ([11, 15, 19] +                    // iGyro
      ([23, 27, 31] +                    // iAcc
      ([35, 37, 39] +                    // sTempr
      ([41, 43] +                        // usOpeSts, usAlgoSts
      ([45, 49, 53, 57] +                // iLatGps, iLonGps, iHgtGps, iOdo
      ([61] +                            // usSensorSts
      [63, 67, 71, 75, 79, 83, 87, 91, 95]))))))  // fDistN .. fPitch
  {
    FromGyroOffsets();
    OffsetsAppend(TimeFields, FromGyro, 3);
  }

  /** The payload is 96 bytes, so `ucLen` excludes exactly itself, the two
      header bytes and the checksum, and the packed struct is 100 bytes. */
  lemma LayoutSizes()
    ensures TotalWidth(PayloadLayout) == PayloadLen as nat
    ensures TotalWidth(FrameLayout) == FrameSize
    ensures PayloadLen as nat == FrameSize - 4
  {
    PayloadOffsets();
    LastFieldEndsStruct(PayloadLayout, PayloadStart);
    TotalWidthAppend([UChar, UChar, UChar], PayloadLayout);
    TotalWidthAppend([UChar, UChar, UChar] + PayloadLayout, [UChar]);
  }

  /** The checksum is the last byte of the struct, right after the payload. */
  lemma ChecksumIsLastByte()
    ensures Offsets(FrameLayout, 0)[|FrameLayout| - 1] == ChecksumIndex == FrameSize - 1
    ensures Offsets(FrameLayout, 0)[..3] == [0, 1, 2]
  {
    LayoutSizes();
    LastFieldEndsStruct(FrameLayout, 0);
    OffsetsAppend([UChar, UChar, UChar], PayloadLayout, 0);
    OffsetsAppend([UChar, UChar, UChar] + PayloadLayout, [UChar], 0);
  }

  /** The decoded frame: one component per payload field.  The triples keep
      the union's two views (see Vectors). */
  datatype ImuRecord = ImuRecord(
    imuOpeTime: uint32,
    utc: uint32,
    gyro: Vec3<int32>,
    acc: Vec3<int32>,
    tempr: Vec3<int16>,
    opeSts: uint16,
    algoSts: uint16,
    latGps: int32,
    lonGps: int32,
    hgtGps: int32,
    odo: int32,
    sensorSts: uint16,
    distN: Float32Bits,
    distU: Float32Bits,
    distE: Float32Bits,
    velN: Float32Bits,
    velU: Float32Bits,
    velE: Float32Bits,
    roll: Float32Bits,
    hdg: Float32Bits,
    pitch: Float32Bits)

  lemma GroupsConform(times: seq<int>, gyro: seq<int>, acc: seq<int>, tempr: seq<int>,
                      status: seq<int>, gpsOdo: seq<int>, sensor: seq<int>, nav: seq<int>)
    requires Conforms(TimeFields, times) && Conforms(GyroFields, gyro)
    requires Conforms(AccFields, acc) && Conforms(TemprFields, tempr)
    requires Conforms(StatusFields, status) && Conforms(GpsOdoFields, gpsOdo)
    requires Conforms(SensorFields, sensor) && Conforms(NavFields, nav)
    ensures Conforms(PayloadLayout, times + (gyro + (acc + (tempr + (status + (gpsOdo + (sensor + nav)))))))
  {
    ConformsAppend(SensorFields, sensor, NavFields, nav);
    ConformsAppend(GpsOdoFields, gpsOdo, FromSensor, sensor + nav);
    ConformsAppend(StatusFields, status, FromGpsOdo, gpsOdo + (sensor + nav));
    ConformsAppend(TemprFields, tempr,
                   FromStatus,
                   status + (gpsOdo + (sensor + nav)));
    ConformsAppend(AccFields, acc,
                   FromTempr,
                   tempr + (status + (gpsOdo + (sensor + nav))));
    ConformsAppend(GyroFields, gyro,
                   FromAcc,
                   acc + (tempr + (status + (gpsOdo + (sensor + nav)))));
    ConformsAppend(TimeFields, times,
                   FromGyro,
                   gyro + (acc + (tempr + (status + (gpsOdo + (sensor + nav))))));
  }

  function TimeValues(rec: ImuRecord): (vs: seq<int>)
    ensures Conforms(TimeFields, vs)
  {
    var vs := [rec.imuOpeTime as int, rec.utc as int];
    ConformsEach(TimeFields, vs);
    vs
  }

  /** The array view `all` of a triple, as stored in the frame. */
  function TripleValues(ty: CType, t: Vec3<int>): (vs: seq<int>)
    requires ty.Holds(t.x) && ty.Holds(t.y) && ty.Holds(t.z)
    ensures Conforms([ty, ty, ty], vs)
  {
    var vs := t.All();
    ConformsEach([ty, ty, ty], vs);
    vs
  }

  function StatusValues(rec: ImuRecord): (vs: seq<int>)
    ensures Conforms(StatusFields, vs)
  {
    var vs := [rec.opeSts as int, rec.algoSts as int];
    ConformsEach(StatusFields, vs);
    vs
  }

  function GpsOdoValues(rec: ImuRecord): (vs: seq<int>)
    ensures Conforms(GpsOdoFields, vs)
  {
    var vs := [rec.latGps as int, rec.lonGps as int, rec.hgtGps as int, rec.odo as int];
    ConformsEach(GpsOdoFields, vs);
    vs
  }

  function SensorValues(rec: ImuRecord): (vs: seq<int>)
    ensures Conforms(SensorFields, vs)
  {
    var vs := [rec.sensorSts as int];
    ConformsEach(SensorFields, vs);
    vs
  }

  function NavValues(rec: ImuRecord): (vs: seq<int>)
    ensures Conforms(NavFields, vs)
  {
    var vs := [rec.distN as int, rec.distU as int, rec.distE as int,
               rec.velN as int, rec.velU as int, rec.velE as int,
               rec.roll as int, rec.hdg as int, rec.pitch as int];
    ConformsEach(NavFields, vs);
    vs
  }

  /** The payload fields of `rec` in declaration order, each a value of its
      declared type. */
  function ToValues(rec: ImuRecord): (vs: seq<int>)
    ensures Conforms(PayloadLayout, vs)
  {
    var gyro := TripleValues(Int, Vec3(rec.gyro.x as int, rec.gyro.y as int, rec.gyro.z as int));
    var acc := TripleValues(Int, Vec3(rec.acc.x as int, rec.acc.y as int, rec.acc.z as int));
    var tempr := TripleValues(Short, Vec3(rec.tempr.x as int, rec.tempr.y as int, rec.tempr.z as int));
    GroupsConform(TimeValues(rec), gyro, acc, tempr, StatusValues(rec), GpsOdoValues(rec),
                  SensorValues(rec), NavValues(rec));
    TimeValues(rec) + (gyro + (acc + (tempr + (StatusValues(rec) + (GpsOdoValues(rec) + (SensorValues(rec) + NavValues(rec)))))))
  }

  /** The record whose payload fields are `vs`: the inverse of ToValues. */
  function FromValues(vs: seq<int>): (rec: ImuRecord)
    requires Conforms(PayloadLayout, vs)
    ensures ToValues(rec) == vs
  {
    ConformsEach(PayloadLayout, vs);
    var rec := ImuRecord(
      vs[0], vs[1],
      Vec3(vs[2], vs[3], vs[4]),
      Vec3(vs[5], vs[6], vs[7]),
      Vec3(vs[8], vs[9], vs[10]),
      vs[11], vs[12], vs[13], vs[14], vs[15], vs[16], vs[17],
      vs[18], vs[19], vs[20], vs[21], vs[22], vs[23], vs[24], vs[25], vs[26]);
    ValuesOfRecord(rec, vs);
    rec
  }

  /** A record whose fields, in declaration order, are the elements of
      `vs` has `vs` as its payload values. */
  lemma ValuesOfRecord(rec: ImuRecord, vs: seq<int>)
    requires |vs| == |PayloadLayout|
    requires rec.imuOpeTime == vs[0] && rec.utc == vs[1]
    requires rec.gyro == Vec3(vs[2], vs[3], vs[4])
    requires rec.acc == Vec3(vs[5], vs[6], vs[7])
    requires rec.tempr == Vec3(vs[8], vs[9], vs[10])
    requires rec.opeSts == vs[11] && rec.algoSts == vs[12]
    requires rec.latGps == vs[13] && rec.lonGps == vs[14] && rec.hgtGps == vs[15] && rec.odo == vs[16]
    requires rec.sensorSts == vs[17]
    requires rec.distN == vs[18] && rec.distU == vs[19] && rec.distE == vs[20]
    requires rec.velN == vs[21] && rec.velU == vs[22] && rec.velE == vs[23]
    requires rec.roll == vs[24] && rec.hdg == vs[25] && rec.pitch == vs[26]
    ensures ToValues(rec) == vs
  {
    assert TimeValues(rec) == vs[0..2];
    assert rec.gyro.All() == vs[2..5];
    assert rec.acc.All() == vs[5..8];
    assert rec.tempr.All() == vs[8..11];
    assert StatusValues(rec) == vs[11..13];
    assert GpsOdoValues(rec) == vs[13..17];
    assert SensorValues(rec) == vs[17..18];
    assert NavValues(rec) == vs[18..27];
    SliceConcat(vs, 17, 18, 27);
    SliceConcat(vs, 13, 17, 27);
    SliceConcat(vs, 11, 13, 27);
    SliceConcat(vs, 8, 11, 27);
    SliceConcat(vs, 5, 8, 27);
    SliceConcat(vs, 2, 5, 27);
    SliceConcat(vs, 0, 2, 27);
    assert vs[0..27] == vs;
  }

  /** The payload values of a record are its fields by name, in the order
      the struct declares them. */
  lemma ValuesByName(rec: ImuRecord)
    ensures ToValues(rec) ==
      [rec.imuOpeTime as int, rec.utc as int] +
      ([rec.gyro.x as int, rec.gyro.y as int, rec.gyro.z as int] +
      ([rec.acc.x as int, rec.acc.y as int, rec.acc.z as int] +
      ([rec.tempr.x as int, rec.tempr.y as int, rec.tempr.z as int] +
      ([rec.opeSts as int, rec.algoSts as int] +
      ([rec.latGps as int, rec.lonGps as int, rec.hgtGps as int, rec.odo as int] +
      ([rec.sensorSts as int] +
      [rec.distN as int, rec.distU as int, rec.distE as int,
       rec.velN as int, rec.velU as int, rec.velE as int,
       rec.roll as int, rec.hdg as int, rec.pitch as int]))))))
  {
  }

  /** The declared types of the payload fields, in order. */
  lemma LayoutByName()
    ensures PayloadLayout == [UInt, UInt, Int, Int, Int, Int, Int, Int, Short, Short, Short,
                              UShort, UShort, Int, Int, Int, Int, UShort,
                              Float, Float, Float, Float, Float, Float, Float, Float, Float]
  {
  }

  lemma FromValuesToValues(rec: ImuRecord)
    ensures FromValues(ToValues(rec)) == rec
  {
  }

  /** Arithmetic sum of the bytes: the reference the checksum is defined by. */
  function Sum(bs: seq<byte>): (s: nat)
    ensures s <= 255 * |bs|
  {
    if bs == [] then 0 else bs[0] + Sum(bs[1..])
  }

  /** An 8-bit checksum register after accumulating `bs` onto `acc`: each
      addition keeps only the low 8 bits. */
  function RunningSum(acc: byte, bs: seq<byte>): (r: byte)
    ensures r == (acc + Sum(bs)) % 256
    decreases bs
  {
    if bs == [] then acc
    else
      LowByteOfSum(acc + bs[0], Sum(bs[1..]));
      RunningSum((acc + bs[0]) % 256, bs[1..])
  }

  lemma LowByteOfSum(a: nat, b: nat)
    ensures (a % 256 + b) % 256 == (a + b) % 256
  {
    var q := a / 256;
    assert a == 256 * q + a % 256;
    assert a + b == 256 * q + (a % 256 + b);
  }

  /** The checksum of a frame: the low 8 bits of the sum of the length byte
      and the payload, leaving out both header bytes and the checksum byte. */
  function Checksum(frame: seq<byte>): (c: byte)
    requires |frame| == FrameSize
    ensures c == Sum(frame[LenIndex..ChecksumIndex]) % 256
  {
    RunningSum(0, frame[LenIndex..ChecksumIndex])
  }

  datatype FrameError = WrongSize | BadHeader | BadLength | BadChecksum

  datatype Outcome = Pass | Fail(error: FrameError)

  datatype Result<T> = Ok(value: T) | Err(error: FrameError)

  /** What a frame must be to be trusted: 100 bytes, the two header bytes,
      `ucLen` = 96 and a checksum that matches what the running 8-bit
      register computes. */
  ghost predicate WellFormed(frame: seq<byte>)
    ensures WellFormed(frame) ==>
      |frame| == FrameSize && frame[LenIndex] == PayloadLen && frame[ChecksumIndex] == Checksum(frame)
  {
    && |frame| == FrameSize
    && frame[0] == 0x99
    && frame[1] == 0x66
    && frame[2] as nat == FrameSize - 4
    && frame[FrameSize - 1] == Sum(frame[2..FrameSize - 1]) % 256
  }

  /** Checks, in order, the size, the two header bytes, the length byte and
      the checksum. */
  function Validate(frame: seq<byte>): (r: Outcome)
    ensures r == Pass <==> WellFormed(frame)
    ensures r == Fail(WrongSize) <==> |frame| != FrameSize
    ensures r == Fail(BadHeader) <==> |frame| == FrameSize && (frame[0] != 0x99 || frame[1] != 0x66)
    ensures r == Fail(BadLength) <==>
      |frame| == FrameSize && frame[0] == 0x99 && frame[1] == 0x66 && frame[2] as nat != FrameSize - 4
  {
    if |frame| != FrameSize then Fail(WrongSize)
    else if frame[0] != Header1 || frame[1] != Header2 then Fail(BadHeader)
    else if frame[LenIndex] != PayloadLen then Fail(BadLength)
    else if frame[ChecksumIndex] != Checksum(frame) then Fail(BadChecksum)
    else Pass
  }

  /** The payload bytes of a 100-byte frame. */
  function Payload(frame: seq<byte>): (p: seq<byte>)
    requires |frame| == FrameSize
    ensures |p| == TotalWidth(PayloadLayout)
  {
    LayoutSizes();
    frame[PayloadStart..ChecksumIndex]
  }

  /** Reads the struct fields from a 100-byte frame, without checking it:
      the record's fields are exactly the payload fields decoded in
      declaration order. */
  function Parse(frame: seq<byte>, order: ByteOrder): (rec: ImuRecord)
    requires |frame| == FrameSize
    ensures ToValues(rec) == DecodeFields(PayloadLayout, Payload(frame), order)
  {
    FromValues(DecodeFields(PayloadLayout, Payload(frame), order))
  }

  /** Decodes a received frame, rejecting it unless it is well formed. */
  function Decode(frame: seq<byte>, order: ByteOrder): (r: Result<ImuRecord>)
    ensures r.Ok? <==> WellFormed(frame)
    ensures r.Err? ==> Validate(frame) == Fail(r.error)
  {
    match Validate(frame)
    case Pass => Ok(Parse(frame, order))
    case Fail(e) => Err(e)
  }

  /** The frame that transmits `rec`: headers, `ucLen`, the payload and a
      freshly computed checksum. */
  function Encode(rec: ImuRecord, order: ByteOrder): (frame: seq<byte>)
    ensures |frame| == FrameSize
    ensures WellFormed(frame)
  {
    LayoutSizes();
    var payload := EncodeFields(PayloadLayout, ToValues(rec), order);
    var covered := [PayloadLen] + payload;
    var frame := [Header1, Header2] + covered + [RunningSum(0, covered)];
    assert frame[LenIndex..ChecksumIndex] == covered;
    frame
  }

  lemma FrameParts(frame: seq<byte>)
    requires |frame| == FrameSize
    ensures frame == [frame[0], frame[1]] + frame[LenIndex..ChecksumIndex] + [frame[ChecksumIndex]]
  {
  }

  /** Encoding a record and decoding the frame gives back the record. */
  lemma DecodeEncode(rec: ImuRecord, order: ByteOrder)
    ensures Decode(Encode(rec, order), order) == Ok(rec)
  {
    LayoutSizes();
    var frame := Encode(rec, order);
    var payload := EncodeFields(PayloadLayout, ToValues(rec), order);
    assert Payload(frame) == payload;
    FromValuesToValues(rec);
  }

  /** Decoding a well-formed frame and encoding the record gives back the
      frame, byte for byte. */
  lemma EncodeDecode(frame: seq<byte>, order: ByteOrder)
    requires WellFormed(frame)
    ensures Decode(frame, order).Ok?
    ensures Encode(Decode(frame, order).value, order) == frame
  {
    var rec := Parse(frame, order);
    assert Decode(frame, order) == Ok(rec);
    ReencodePayload(frame, order);
    EncodeOfPayload(rec, order, frame);
  }

  /** Re-encoding the fields parsed from a frame gives back its payload. */
  lemma ReencodePayload(frame: seq<byte>, order: ByteOrder)
    requires |frame| == FrameSize
    ensures EncodeFields(PayloadLayout, ToValues(Parse(frame, order)), order) == Payload(frame)
  {
    EncodeFieldsDecodeFields(PayloadLayout, Payload(frame), order);
  }

  /** A well-formed frame is the encoding of any record whose fields encode
      to its payload: the headers, `ucLen` and the checksum are determined
      by the payload. */
  lemma EncodeOfPayload(rec: ImuRecord, order: ByteOrder, frame: seq<byte>)
    requires WellFormed(frame)
    requires EncodeFields(PayloadLayout, ToValues(rec), order) == Payload(frame)
    ensures Encode(rec, order) == frame
  {
    var payload := EncodeFields(PayloadLayout, ToValues(rec), order);
    CoveredBytes(frame, payload);
    FrameOfParts(frame, [PayloadLen] + payload);
  }

  /** The bytes the checksum covers are `ucLen` followed by the payload. */
  lemma CoveredBytes(frame: seq<byte>, payload: seq<byte>)
    requires |frame| == FrameSize
    requires payload == Payload(frame)
    requires frame[LenIndex] == PayloadLen
    ensures [PayloadLen] + payload == frame[LenIndex..ChecksumIndex]
  {
    SliceConcat(frame, LenIndex, PayloadStart, ChecksumIndex);
    assert frame[LenIndex..PayloadStart] == [PayloadLen];
  }

  /** A frame is its headers, the bytes the checksum covers and the
      checksum of those bytes. */
  lemma FrameOfParts(frame: seq<byte>, covered: seq<byte>)
    requires |frame| == FrameSize
    requires frame[0] == Header1 && frame[1] == Header2
    requires covered == frame[LenIndex..ChecksumIndex]
    requires frame[ChecksumIndex] == RunningSum(0, covered)
    ensures [Header1, Header2] + covered + [RunningSum(0, covered)] == frame
  {
    FrameParts(frame);
  }

  lemma {:induction false} SumUpdate(bs: seq<byte>, i: nat, b: byte)
    requires i < |bs|
    ensures Sum(bs[i := b]) == Sum(bs) - bs[i] + b
  {
    if i == 0 {
      assert bs[i := b][1..] == bs[1..];
    } else {
      assert bs[i := b][1..] == bs[1..][i - 1 := b];
      SumUpdate(bs[1..], i - 1, b);
    }
  }

  /** Helper for SingleByteChangeRejected (plain modular arithmetic): two
      sums that differ by less than 256, but do differ, differ in their low
      8 bits. */
  lemma LowByteDetectsSmallChange(s: int, t: int)
    requires s != t && -256 < s - t < 256
    ensures s % 256 != t % 256
  {
  }

  /** The checksum gate: changing any one byte of a well-formed frame,
      without recomputing the checksum, makes the frame fail validation, and
      the validator names the check that catches it. */
  lemma SingleByteChangeRejected(frame: seq<byte>, i: nat, b: byte)
    requires WellFormed(frame)
    requires i < FrameSize && b != frame[i]
    ensures !WellFormed(frame[i := b])
    ensures Validate(frame[i := b]) == Fail(
      if i < LenIndex then BadHeader else if i == LenIndex then BadLength else BadChecksum)
  {
    var tampered := frame[i := b];
    if LenIndex < i < ChecksumIndex {
      var covered := frame[LenIndex..ChecksumIndex];
      assert tampered[LenIndex..ChecksumIndex] == covered[i - LenIndex := b];
      SumUpdate(covered, i - LenIndex, b);
      LowByteDetectsSmallChange(Sum(covered) - frame[i] + b, Sum(covered));
    } else if i == ChecksumIndex {
      assert tampered[LenIndex..ChecksumIndex] == frame[LenIndex..ChecksumIndex];
    }
  }

  /** The header bytes and the checksum byte itself are not covered by the
      checksum. */
  lemma ChecksumIgnoresHeaderAndItself(frame: seq<byte>, i: nat, b: byte)
    requires |frame| == FrameSize
    requires i < LenIndex || i == ChecksumIndex
    ensures Checksum(frame[i := b]) == Checksum(frame)
  {
    assert frame[i := b][LenIndex..ChecksumIndex] == frame[LenIndex..ChecksumIndex];
  }

  /** Offset in the frame of payload field `i`. */
  function FieldOffset(i: nat): nat
    requires i < |PayloadLayout|
  {
    PayloadStart + PrefixWidth(PayloadLayout, i)
  }

  /** The bytes of payload field `i` sit at its offset in the frame. */
  lemma PayloadFieldBytes(frame: seq<byte>, i: nat)
    requires |frame| == FrameSize
    requires i < |PayloadLayout|
    ensures FieldOffset(i) + PayloadLayout[i].Width() <= ChecksumIndex
    ensures FieldBytes(PayloadLayout, Payload(frame), i)
            == frame[FieldOffset(i) .. FieldOffset(i) + PayloadLayout[i].Width()]
  {
    LayoutSizes();
    FieldBytesAtOffset(PayloadLayout, Payload(frame), i);
    SliceOfSlice(frame, PayloadStart, ChecksumIndex, PrefixWidth(PayloadLayout, i), PayloadLayout[i].Width());
  }

  /** Payload field `i` is read from the `Width()` bytes at its offset in
      the frame. */
  lemma ParseFieldAt(frame: seq<byte>, order: ByteOrder, i: nat)
    requires |frame| == FrameSize
    requires i < |PayloadLayout|
    ensures FieldOffset(i) + PayloadLayout[i].Width() <= ChecksumIndex
    ensures ToValues(Parse(frame, order))[i]
            == DecodeValue(PayloadLayout[i], frame[FieldOffset(i) .. FieldOffset(i) + PayloadLayout[i].Width()], order)
  {
    DecodeFieldAt(PayloadLayout, Payload(frame), order, i);
    PayloadFieldBytes(frame, i);
  }

  /** Payload field `i`, as the decoder reads it, is the value stored at
      its offset in the frame layout. */
  lemma DecodedFieldInFrame(frame: seq<byte>, order: ByteOrder, i: nat)
    requires |frame| == FrameSize
    requires i < |PayloadLayout|
    ensures FieldOffset(i) == Offsets(PayloadLayout, PayloadStart)[i]
    ensures FieldOffset(i) + PayloadLayout[i].Width() <= ChecksumIndex
    ensures DecodeFields(PayloadLayout, Payload(frame), order)[i]
            == DecodeValue(PayloadLayout[i], frame[FieldOffset(i) .. FieldOffset(i) + PayloadLayout[i].Width()], order)
  {
    DecodeFieldAt(PayloadLayout, Payload(frame), order, i);
    PayloadFieldBytes(frame, i);
    OffsetIsPrefixWidth(PayloadLayout, PayloadStart, i);
  }

  /** The declared type and the frame offset of each payload field, one
      field at a time, in three parts: the inertial data, GPS and
      odometer, and the navigation solution. */
  lemma InertialPlaces()
    ensures PayloadLayout[0] == UInt && Offsets(PayloadLayout, PayloadStart)[0] == 3   // uiImuOpeTime
    ensures PayloadLayout[1] == UInt && Offsets(PayloadLayout, PayloadStart)[1] == 7   // uiUtc
    ensures PayloadLayout[2] == Int && Offsets(PayloadLayout, PayloadStart)[2] == 11   // iGyro.all[0]
    ensures PayloadLayout[3] == Int && Offsets(PayloadLayout, PayloadStart)[3] == 15   // iGyro.all[1]
    ensures PayloadLayout[4] == Int && Offsets(PayloadLayout, PayloadStart)[4] == 19   // iGyro.all[2]
    ensures PayloadLayout[5] == Int && Offsets(PayloadLayout, PayloadStart)[5] == 23   // iAcc.all[0]
    ensures PayloadLayout[6] == Int && Offsets(PayloadLayout, PayloadStart)[6] == 27   // iAcc.all[1]
    ensures PayloadLayout[7] == Int && Offsets(PayloadLayout, PayloadStart)[7] == 31   // iAcc.all[2]
    ensures PayloadLayout[8] == Short && Offsets(PayloadLayout, PayloadStart)[8] == 35  // sTempr.all[0]
    ensures PayloadLayout[9] == Short && Offsets(PayloadLayout, PayloadStart)[9] == 37  // sTempr.all[1]
    ensures PayloadLayout[10] == Short && Offsets(PayloadLayout, PayloadStart)[10] == 39  // sTempr.all[2]
    ensures PayloadLayout[11] == UShort && Offsets(PayloadLayout, PayloadStart)[11] == 41  // usOpeSts
    ensures PayloadLayout[12] == UShort && Offsets(PayloadLayout, PayloadStart)[12] == 43  // usAlgoSts
  {
    PayloadOffsets();
  }

  lemma GpsOdoPlaces()
    ensures PayloadLayout[13] == Int && Offsets(PayloadLayout, PayloadStart)[13] == 45  // iLatGps
    ensures PayloadLayout[14] == Int && Offsets(PayloadLayout, PayloadStart)[14] == 49  // iLonGps
    ensures PayloadLayout[15] == Int && Offsets(PayloadLayout, PayloadStart)[15] == 53  // iHgtGps
    ensures PayloadLayout[16] == Int && Offsets(PayloadLayout, PayloadStart)[16] == 57  // iOdo
    ensures PayloadLayout[17] == UShort && Offsets(PayloadLayout, PayloadStart)[17] == 61  // usSensorSts
  {
    PayloadOffsets();
  }

  lemma NavPlaces()
    ensures PayloadLayout[18] == Float && Offsets(PayloadLayout, PayloadStart)[18] == 63  // fDistN
    ensures PayloadLayout[19] == Float && Offsets(PayloadLayout, PayloadStart)[19] == 67  // fDistU
    ensures PayloadLayout[20] == Float && Offsets(PayloadLayout, PayloadStart)[20] == 71  // fDistE
    ensures PayloadLayout[21] == Float && Offsets(PayloadLayout, PayloadStart)[21] == 75  // fVelN
    ensures PayloadLayout[22] == Float && Offsets(PayloadLayout, PayloadStart)[22] == 79  // fVelU
    ensures PayloadLayout[23] == Float && Offsets(PayloadLayout, PayloadStart)[23] == 83  // fVelE
    ensures PayloadLayout[24] == Float && Offsets(PayloadLayout, PayloadStart)[24] == 87  // fRoll
    ensures PayloadLayout[25] == Float && Offsets(PayloadLayout, PayloadStart)[25] == 91  // fHdg
    ensures PayloadLayout[26] == Float && Offsets(PayloadLayout, PayloadStart)[26] == 95  // fPitch
  {
    PayloadOffsets();
  }

  /** Payload field `i`, of declared type `ty` at frame offset `off`, is
      decoded from the `ty.Width()` bytes at `off`. */
  lemma DecodedAt(frame: seq<byte>, order: ByteOrder, i: nat, ty: CType, off: nat)
    requires |frame| == FrameSize
    requires i < |PayloadLayout|
    requires PayloadLayout[i] == ty && Offsets(PayloadLayout, PayloadStart)[i] == off
    ensures off + ty.Width() <= ChecksumIndex
    ensures DecodeFields(PayloadLayout, Payload(frame), order)[i]
            == DecodeValue(ty, frame[off .. off + ty.Width()], order)
  {
    DecodedFieldInFrame(frame, order, i);
  }

  /** The record Parse builds holds decoded payload value `i` in the field
      declared `i`-th. */
  lemma ParseFields(frame: seq<byte>, order: ByteOrder)
    requires |frame| == FrameSize
    ensures var vs := DecodeFields(PayloadLayout, Payload(frame), order);
      Parse(frame, order) == ImuRecord(
        vs[0], vs[1],
        Vec3(vs[2], vs[3], vs[4]), Vec3(vs[5], vs[6], vs[7]), Vec3(vs[8], vs[9], vs[10]),
        vs[11], vs[12], vs[13], vs[14], vs[15], vs[16], vs[17],
        vs[18], vs[19], vs[20], vs[21], vs[22], vs[23], vs[24], vs[25], vs[26])
  {
  }

  /** Each group of decoded payload values is read from its own bytes of
      the frame, at the offsets of the packed declaration. */
  lemma DecodedTime(frame: seq<byte>, order: ByteOrder)
    requires |frame| == FrameSize
    ensures var vs := DecodeFields(PayloadLayout, Payload(frame), order);
      vs[0] == DecodeValue(UInt, frame[3..7], order) &&
      vs[1] == DecodeValue(UInt, frame[7..11], order)
  {
    InertialPlaces();
    DecodedAt(frame, order, 0, UInt, 3);
    DecodedAt(frame, order, 1, UInt, 7);
  }

  lemma DecodedGyro(frame: seq<byte>, order: ByteOrder)
    requires |frame| == FrameSize
    ensures var vs := DecodeFields(PayloadLayout, Payload(frame), order);
      vs[2] == DecodeValue(Int, frame[11..15], order) &&
      vs[3] == DecodeValue(Int, frame[15..19], order) &&
      vs[4] == DecodeValue(Int, frame[19..23], order)
  {
    InertialPlaces();
    DecodedAt(frame, order, 2, Int, 11);
    DecodedAt(frame, order, 3, Int, 15);
    DecodedAt(frame, order, 4, Int, 19);
  }

  lemma DecodedAcc(frame: seq<byte>, order: ByteOrder)
    requires |frame| == FrameSize
    ensures var vs := DecodeFields(PayloadLayout, Payload(frame), order);
      vs[5] == DecodeValue(Int, frame[23..27], order) &&
      vs[6] == DecodeValue(Int, frame[27..31], order) &&
      vs[7] == DecodeValue(Int, frame[31..35], order)
  {
    InertialPlaces();
    DecodedAt(frame, order, 5, Int, 23);
    DecodedAt(frame, order, 6, Int, 27);
    DecodedAt(frame, order, 7, Int, 31);
  }

  lemma DecodedTempr(frame: seq<byte>, order: ByteOrder)
    requires |frame| == FrameSize
    ensures var vs := DecodeFields(PayloadLayout, Payload(frame), order);
      vs[8] == DecodeValue(Short, frame[35..37], order) &&
      vs[9] == DecodeValue(Short, frame[37..39], order) &&
      vs[10] == DecodeValue(Short, frame[39..41], order)
  {
    InertialPlaces();
    DecodedAt(frame, order, 8, Short, 35);
    DecodedAt(frame, order, 9, Short, 37);
    DecodedAt(frame, order, 10, Short, 39);
  }

  lemma DecodedStatus(frame: seq<byte>, order: ByteOrder)
    requires |frame| == FrameSize
    ensures var vs := DecodeFields(PayloadLayout, Payload(frame), order);
      vs[11] == DecodeValue(UShort, frame[41..43], order) &&
      vs[12] == DecodeValue(UShort, frame[43..45], order)
  {
    InertialPlaces();
    DecodedAt(frame, order, 11, UShort, 41);
    DecodedAt(frame, order, 12, UShort, 43);
  }

  lemma DecodedGpsOdo(frame: seq<byte>, order: ByteOrder)
    requires |frame| == FrameSize
    ensures var vs := DecodeFields(PayloadLayout, Payload(frame), order);
      vs[13] == DecodeValue(Int, frame[45..49], order) &&
      vs[14] == DecodeValue(Int, frame[49..53], order) &&
      vs[15] == DecodeValue(Int, frame[53..57], order) &&
      vs[16] == DecodeValue(Int, frame[57..61], order)
  {
    GpsOdoPlaces();
    DecodedAt(frame, order, 13, Int, 45);
    DecodedAt(frame, order, 14, Int, 49);
    DecodedAt(frame, order, 15, Int, 53);
    DecodedAt(frame, order, 16, Int, 57);
  }

  lemma DecodedSensor(frame: seq<byte>, order: ByteOrder)
    requires |frame| == FrameSize
    ensures var vs := DecodeFields(PayloadLayout, Payload(frame), order);
      vs[17] == DecodeValue(UShort, frame[61..63], order)
  {
    GpsOdoPlaces();
    DecodedAt(frame, order, 17, UShort, 61);
  }

  lemma DecodedDistance(frame: seq<byte>, order: ByteOrder)
    requires |frame| == FrameSize
    ensures var vs := DecodeFields(PayloadLayout, Payload(frame), order);
      vs[18] == DecodeValue(Float, frame[63..67], order) &&
      vs[19] == DecodeValue(Float, frame[67..71], order) &&
      vs[20] == DecodeValue(Float, frame[71..75], order)
  {
    NavPlaces();
    DecodedAt(frame, order, 18, Float, 63);
    DecodedAt(frame, order, 19, Float, 67);
    DecodedAt(frame, order, 20, Float, 71);
  }

  lemma DecodedVelocity(frame: seq<byte>, order: ByteOrder)
    requires |frame| == FrameSize
    ensures var vs := DecodeFields(PayloadLayout, Payload(frame), order);
      vs[21] == DecodeValue(Float, frame[75..79], order) &&
      vs[22] == DecodeValue(Float, frame[79..83], order) &&
      vs[23] == DecodeValue(Float, frame[83..87], order)
  {
    NavPlaces();
    DecodedAt(frame, order, 21, Float, 75);
    DecodedAt(frame, order, 22, Float, 79);
    DecodedAt(frame, order, 23, Float, 83);
  }

  lemma DecodedAttitude(frame: seq<byte>, order: ByteOrder)
    requires |frame| == FrameSize
    ensures var vs := DecodeFields(PayloadLayout, Payload(frame), order);
      vs[24] == DecodeValue(Float, frame[87..91], order) &&
      vs[25] == DecodeValue(Float, frame[91..95], order) &&
      vs[26] == DecodeValue(Float, frame[95..99], order)
  {
    NavPlaces();
    DecodedAt(frame, order, 24, Float, 87);
    DecodedAt(frame, order, 25, Float, 91);
    DecodedAt(frame, order, 26, Float, 95);
  }

  /** Readers for the value stored at byte `off` of the frame, one per C
      type of the payload: `unsigned int`, `int`, `short`, `unsigned short`
      and `float` (as its bit pattern). */
  function UIntAt(frame: seq<byte>, order: ByteOrder, off: nat): uint32
    requires off + 4 <= |frame|
  {
    DecodeValue(UInt, frame[off .. off + 4], order)
  }

  function IntAt(frame: seq<byte>, order: ByteOrder, off: nat): int32
    requires off + 4 <= |frame|
  {
    DecodeValue(Int, frame[off .. off + 4], order)
  }

  function ShortAt(frame: seq<byte>, order: ByteOrder, off: nat): int16
    requires off + 2 <= |frame|
  {
    DecodeValue(Short, frame[off .. off + 2], order)
  }

  function UShortAt(frame: seq<byte>, order: ByteOrder, off: nat): uint16
    requires off + 2 <= |frame|
  {
    DecodeValue(UShort, frame[off .. off + 2], order)
  }

  function FloatAt(frame: seq<byte>, order: ByteOrder, off: nat): Float32Bits
    requires off + 4 <= |frame|
  {
    DecodeValue(Float, frame[off .. off + 4], order)
  }

  /** The record read field by field, each under its own name, from the
      bytes at that field's offset in the packed declaration: an
      independent reading of the frame, written out by hand. */
  function ReadByName(frame: seq<byte>, order: ByteOrder): (rec: ImuRecord)
    requires |frame| == FrameSize
  {
    ImuRecord(
      UIntAt(frame, order, 3), UIntAt(frame, order, 7),
      Vec3(IntAt(frame, order, 11), IntAt(frame, order, 15),
           IntAt(frame, order, 19)),
      Vec3(IntAt(frame, order, 23), IntAt(frame, order, 27),
           IntAt(frame, order, 31)),
      Vec3(ShortAt(frame, order, 35), ShortAt(frame, order, 37),
           ShortAt(frame, order, 39)),
      UShortAt(frame, order, 41), UShortAt(frame, order, 43),
      IntAt(frame, order, 45), IntAt(frame, order, 49),
      IntAt(frame, order, 53), IntAt(frame, order, 57),
      UShortAt(frame, order, 61),
      FloatAt(frame, order, 63), FloatAt(frame, order, 67),
      FloatAt(frame, order, 71),
      FloatAt(frame, order, 75), FloatAt(frame, order, 79),
      FloatAt(frame, order, 83),
      FloatAt(frame, order, 87), FloatAt(frame, order, 91),
      FloatAt(frame, order, 95))
  }

  /** The decoder, field by field: the record parsed from a frame holds,
      under each name, the value of the declared type stored at that
      field's offset. */
  lemma ParseByName(frame: seq<byte>, order: ByteOrder)
    requires |frame| == FrameSize
    ensures Parse(frame, order) == ReadByName(frame, order)
  {
    ParseFields(frame, order);
    DecodedTime(frame, order);
    DecodedGyro(frame, order);
    DecodedAcc(frame, order);
    DecodedTempr(frame, order);
    DecodedStatus(frame, order);
    DecodedGpsOdo(frame, order);
    DecodedSensor(frame, order);
    DecodedDistance(frame, order);
    DecodedVelocity(frame, order);
    DecodedAttitude(frame, order);
  }

  /** `all[k]` of each triple is the k-th element of its array in the frame:
      gyro at 11 and acc at 23 (4 bytes each), temperature at 35 (2 bytes
      each). */
  lemma GyroInFrame(frame: seq<byte>, order: ByteOrder, k: nat)
    requires |frame| == FrameSize
    requires k < 3
    ensures Parse(frame, order).gyro.At(k) == DecodeValue(Int, frame[11 + 4 * k .. 15 + 4 * k], order)
  {
    ParseFields(frame, order);
    DecodedGyro(frame, order);
  }

  lemma AccInFrame(frame: seq<byte>, order: ByteOrder, k: nat)
    requires |frame| == FrameSize
    requires k < 3
    ensures Parse(frame, order).acc.At(k) == DecodeValue(Int, frame[23 + 4 * k .. 27 + 4 * k], order)
  {
    ParseFields(frame, order);
    DecodedAcc(frame, order);
  }

  lemma TemprInFrame(frame: seq<byte>, order: ByteOrder, k: nat)
    requires |frame| == FrameSize
    requires k < 3
    ensures Parse(frame, order).tempr.At(k) == DecodeValue(Short, frame[35 + 2 * k .. 37 + 2 * k], order)
  {
    ParseFields(frame, order);
    DecodedTempr(frame, order);
  }
}
