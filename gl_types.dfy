/** Fixed-width integer types of the OpenGL API, as used by the teaching programs. */
module GLTypes {

  /** Number of distinct values of a 32-bit `GLuint`. */
  const GLUINT_MODULUS: int := 0x1_0000_0000

  /** Largest `GLuint`. */
  const GLUINT_MAX: int := GLUINT_MODULUS - 1

  /** `GLuint`: unsigned 32-bit integer. */
  type GLuint = x: int | 0 <= x < GLUINT_MODULUS

  /** `GLubyte` / `unsigned char`: unsigned 8-bit integer. */
  type GLubyte = x: int | 0 <= x < 256

  /** Reduces an exact integer result to `GLuint`, as C and GLSL unsigned
      arithmetic does (Dafny's `%` is Euclidean, so negative `x` wraps upward). */
  function WrapUint(x: int): (r: GLuint)
    ensures 0 <= x < GLUINT_MODULUS ==> r == x
    ensures -GLUINT_MODULUS <= x < 0 ==> r == x + GLUINT_MODULUS
    ensures GLUINT_MODULUS <= x < 2 * GLUINT_MODULUS ==> r == x - GLUINT_MODULUS
  {
    x % GLUINT_MODULUS
  }

  /** Wrapping after every step or only at the end gives the same `GLuint`. */
  lemma WrapStep(x: int, d: int)
    ensures WrapUint(WrapUint(x) + d) == WrapUint(x + d)
  {
    var q := x / GLUINT_MODULUS;
    assert x == q * GLUINT_MODULUS + WrapUint(x);
    assert x + d == q * GLUINT_MODULUS + (WrapUint(x) + d);
  }
}
