/** The fixed-point fields of the IMU frame and their documented scale
    factors: a physical value is the raw count divided by a positive
    constant.  The division is exact here (`real`), so multiplying back
    recovers the raw count, and the declared width of each raw field bounds
    the physical value. */
module Scale {
  import opened CTypes
  import opened Vectors

  /** Counts per degree of `iLatGps` and `iLonGps`. */
  const LatLonScale: real := 11930400.0
  /** Counts per unit of `iHgtGps`. */
  const HeightScale: real := 131080.0
  /** Counts per degree of each `sTempr` component. */
  const TemperatureScale: real := 16.0

  /** GPS latitude `iLatGps / 11930400` and longitude `iLonGps / 11930400`:
      both fields share the one scale factor. */
  function Degrees(raw: int32): (deg: real)
    ensures deg * LatLonScale == raw as real
    ensures -180.001 < deg < 180.001
  {
    raw as real / LatLonScale
  }

  /** GPS height, `iHgtGps / 131080`. */
  function Height(raw: int32): (h: real)
    ensures h * HeightScale == raw as real
    ensures -16384.0 < h < 16384.0
  {
    raw as real / HeightScale
  }

  /** Gyro temperature, `sTempr / 16.0`. */
  function Temperature(raw: int16): (t: real)
    ensures t * TemperatureScale == raw as real
    ensures -2048.0 <= t < 2048.0
  {
    raw as real / TemperatureScale
  }

  /** The three gyro temperatures, component by component. */
  function Temperatures(raw: Vec3<int16>): (t: Vec3<real>)
    ensures forall i :: 0 <= i < 3 ==> t.At(i) * TemperatureScale == raw.At(i) as real
  {
    raw.Map(Temperature)
  }

  /** Each conversion is strictly increasing, so distinct raw counts give
      distinct physical values and the order of readings is kept. */
  lemma ConversionsPreserveOrder(a: int32, b: int32, ta: int16, tb: int16)
    ensures a < b <==> Degrees(a) < Degrees(b)
    ensures a < b <==> Height(a) < Height(b)
    ensures ta < tb <==> Temperature(ta) < Temperature(tb)
  {
  }
}
