/** Facts about Dafny's Euclidean remainder that the ring-buffer index
    arithmetic relies on. Every modulus here is positive, where Dafny's `%`
    agrees with the C++ `%` on the non-negative operands the driver uses. */
module ModArith {

  /** The remainder is the unique `r` in `[0, n)` with `a == q * n + r`. */
  lemma ModUnique(a: int, n: int, q: int, r: int)
    requires 0 < n && 0 <= r < n && a == q * n + r
    ensures a % n == r
  {
    var q', r' := a / n, a % n;
    assert a == q' * n + r';
    assert (q - q') * n == r' - r;
    ZeroMultiple(q - q', n);
  }

  /** The only multiple of `n` strictly between `-n` and `n` is zero. */
  lemma ZeroMultiple(t: int, n: int)
    requires 0 < n && -n < t * n < n
    ensures t == 0
  {
  }

  /** A value already in `[0, n)` is its own remainder. */
  lemma ModSmall(a: int, n: int)
    requires 0 <= a < n
    ensures a % n == a
  {
    ModUnique(a, n, 0, a);
  }

  /** A value in `[n, 2n)` loses exactly one `n`. */
  lemma ModWrapOnce(a: int, n: int)
    requires 0 < n <= a < 2 * n
    ensures a % n == a - n
  {
    ModUnique(a, n, 1, a - n);
  }

  /** Reducing the left operand first does not change the sum's remainder. */
  lemma ModAddMod(a: int, b: int, n: int)
    requires 0 < n
    ensures (a % n + b) % n == (a + b) % n
  {
    var q := a / n;
    var t := a % n + b;
    assert a + b == q * n + t;
    assert t == (t / n) * n + t % n;
    assert a + b == (q + t / n) * n + t % n;
    ModUnique(a + b, n, q + t / n, t % n);
  }

  /** Adding the modulus itself does not change the remainder. */
  lemma ModAddModulus(a: int, n: int)
    requires 0 < n
    ensures (a + n) % n == a % n
  {
    assert a + n == (a / n + 1) * n + a % n;
    ModUnique(a + n, n, a / n + 1, a % n);
  }

  /** Two values less than `n` apart, and not equal, have different remainders. */
  lemma ModDistinct(a: int, d: int, n: int)
    requires 0 < d < n
    ensures (a + d) % n != a % n
  {
    var q, r := a / n, a % n;
    assert a == q * n + r;
    if r + d < n {
      ModUnique(a + d, n, q, r + d);
    } else {
      assert a + d == (q + 1) * n + (r + d - n);
      ModUnique(a + d, n, q + 1, r + d - n);
    }
  }
}
