/**
 * Three-component vectors (the D3vector of the source) and complex numbers
 * (std::complex<double>), over exact reals.
 */
module Numbers {

  datatype Vec3 = Vec3(x: real, y: real, z: real)

  const Zero3: Vec3 := Vec3(0.0, 0.0, 0.0)

  function Add3(a: Vec3, b: Vec3): (r: Vec3)
    ensures r.x == a.x + b.x && r.y == a.y + b.y && r.z == a.z + b.z
  {
    Vec3(a.x + b.x, a.y + b.y, a.z + b.z)
  }

  function Sub3(a: Vec3, b: Vec3): (r: Vec3)
    ensures Add3(r, b) == a
  {
    Vec3(a.x - b.x, a.y - b.y, a.z - b.z)
  }

  function Scale3(k: real, a: Vec3): (r: Vec3)
    ensures k == 0.0 ==> r == Zero3
    ensures k == 1.0 ==> r == a
  {
    Vec3(k * a.x, k * a.y, k * a.z)
  }

  /** Squared Euclidean norm. */
  function Norm2(a: Vec3): (r: real)
    ensures r >= 0.0
  {
    a.x * a.x + a.y * a.y + a.z * a.z
  }

  datatype Complex = C(re: real, im: real)

  const I: Complex := C(0.0, 1.0)

  function CAdd(a: Complex, b: Complex): Complex
  {
    C(a.re + b.re, a.im + b.im)
  }

  function CSub(a: Complex, b: Complex): (r: Complex)
    ensures CAdd(r, b) == a
  {
    C(a.re - b.re, a.im - b.im)
  }

  function CMul(a: Complex, b: Complex): Complex
  {
    C(a.re * b.re - a.im * b.im, a.re * b.im + a.im * b.re)
  }

  /** A real multiple of a complex number. */
  function CScale(k: real, a: Complex): Complex
  {
    C(k * a.re, k * a.im)
  }

  /** std::norm: the squared modulus. */
  function CNorm(a: Complex): (r: real)
    ensures r >= 0.0
  {
    a.re * a.re + a.im * a.im
  }
}
