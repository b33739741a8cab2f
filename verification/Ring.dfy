/** Index arithmetic modulo the length of a ring. */
module Ring {

  /** x modulo n for an x below 2n, without the division. */
  function Wrap(x: nat, n: nat): (r: nat)
    requires x < 2 * n
    ensures r < n && r == x % n
  {
    if x < n then x
    else
      assert x / n == 1;
      x - n
  }
}
