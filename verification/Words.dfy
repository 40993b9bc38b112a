/** The 16-bit signed arithmetic of the drawing libraries. */
module Words {

  type Int16 = n: int | -32768 <= n < 32768

  /** Conversion to `int16_t`. */
  function Wrap(n: int): (r: Int16)
    ensures -32768 <= n < 32768 ==> r == n
  {
    (n + 32768) % 65536 - 32768
  }

  /** Sums may be taken before or after conversion. */
  lemma WrapAdd(a: int, b: int)
    ensures Wrap(Wrap(a) + b) == Wrap(a + b)
  {
  }
}
