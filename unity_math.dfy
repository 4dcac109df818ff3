/** The parts of C#'s integer arithmetic and of the engine's math library that the race code
    relies on. */
module UnityMath {

  const INT32_MIN: int := -0x8000_0000
  const INT32_MAX: int := 0x7fff_ffff

  /** C#'s `int`: a 32-bit two's-complement integer. */
  type Int32 = x: int | INT32_MIN <= x <= INT32_MAX

  /** C#'s unchecked `a + b` on `int`: the sum taken modulo 2^32, back in the `int` range. */
  function AddInt32(a: Int32, b: Int32): (r: Int32)
    ensures INT32_MIN <= a + b <= INT32_MAX ==> r == a + b
    ensures (a + b - r) % 0x1_0000_0000 == 0
  {
    var shifted := a + b + 0x8000_0000;
    assert shifted == (shifted / 0x1_0000_0000) * 0x1_0000_0000 + shifted % 0x1_0000_0000;
    (shifted % 0x1_0000_0000 - 0x8000_0000) as Int32
  }

  /** `Mathf.Clamp(int value, int min, int max)`: a value below `min` becomes `min`, otherwise
      a value above `max` becomes `max`. The test against `min` comes first, so when
      `max < min` every value that is not below `min` becomes `max`. */
  function Clamp(value: int, min: int, max: int): (r: int)
    ensures min <= max ==> min <= r <= max
    ensures min <= value <= max ==> r == value
    ensures r == value || r == min || r == max
    ensures max < min ==> (r == min <==> value < min)
    ensures value < min ==> r == min
    ensures min <= value && max < value ==> r == max
  {
    if value < min then min
    else if value > max then max
    else value
  }

  /** `Vector3`, with exact reals in place of single-precision floats. */
  datatype Vec3 = Vec3(x: real, y: real, z: real)

  /** `Vector3.zero`. */
  const Zero: Vec3 := Vec3(0.0, 0.0, 0.0)
}
