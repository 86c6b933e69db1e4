/** The gyro, accelerometer and temperature triples of the IMU frame.

    In the C struct each triple is a union of an array `all[3]` and an
    anonymous struct `{x, y, z}` over the same storage.  Here a triple is a
    value with named components and an indexed view, and the two views are
    proved to agree: `all[0]`, `all[1]`, `all[2]` are `x`, `y`, `z`, and a
    write through either view is seen through the other. */
module Vectors {

  datatype Vec3<T> = Vec3(x: T, y: T, z: T) {

    /** The array view `all`. */
    function All(): (s: seq<T>)
      ensures |s| == 3
    {
      [x, y, z]
    }

    /** `all[i]`. */
    function At(i: nat): (v: T)
      requires i < 3
      ensures v == All()[i]
    {
      if i == 0 then x else if i == 1 then y else z
    }

    /** Stores `v` into `all[i]`, leaving the other two slots as they were. */
    function With(i: nat, v: T): (r: Vec3<T>)
      requires i < 3
      ensures r.At(i) == v
      ensures forall j :: 0 <= j < 3 && j != i ==> r.At(j) == At(j)
    {
      if i == 0 then Vec3(v, y, z) else if i == 1 then Vec3(x, v, z) else Vec3(x, y, v)
    }

    /** Applies `f` to each component. */
    function Map<U>(f: T -> U): (r: Vec3<U>)
      ensures forall i :: 0 <= i < 3 ==> r.At(i) == f(At(i))
    {
      Vec3(f(x), f(y), f(z))
    }
  }

  /** The triple whose array view is `s`. */
  function FromAll<T>(s: seq<T>): (v: Vec3<T>)
    requires |s| == 3
    ensures v.All() == s
  {
    Vec3(s[0], s[1], s[2])
  }

  /** The named components are the array slots 0, 1 and 2. */
  lemma NamedIsIndexed<T>(v: Vec3<T>)
    ensures v.At(0) == v.x && v.At(1) == v.y && v.At(2) == v.z
  {
  }

  lemma FromAllAll<T>(v: Vec3<T>)
    ensures FromAll(v.All()) == v
  {
  }

  /** A write to the named component `y` is the write to `all[1]`. */
  lemma NamedWriteIsIndexedWrite<T>(v: Vec3<T>, a: T)
    ensures v.(y := a) == v.With(1, a)
    ensures v.(x := a) == v.With(0, a) && v.(z := a) == v.With(2, a)
  {
  }
}
