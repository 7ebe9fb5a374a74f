/** The default hash functors of `fefu::hash_map` and the double-hashing probe
    sequence that insert, insert_or_assign, find, contains and erase all follow. */
module Hashing {

  /** size_t is 64 bits wide; the C++ `%` of an int key by a size_t first converts
      the key to size_t, which wraps it modulo 2^64. */
  const SizeTModulus: int := 0x1_0000_0000_0000_0000

  /** The value of an int key once converted to size_t. */
  function AsSize(k: int): (r: nat)
    ensures r < SizeTModulus
    ensures 0 <= k < SizeTModulus ==> r == k
  {
    k % SizeTModulus
  }

  /** FirstKeyHash: key % table_size, the first slot the probe examines. */
  function FirstKeyHash(k: int, n: nat): (h: nat)
    requires n > 0
    ensures h < n
  {
    AsSize(k) % n
  }

  /** SecondKeyHash: (key - 1) % table_size + 1, the probe step; it lies in [1, n],
      and n is a step that never moves (see StepIsSizeIff). */
  function SecondKeyHash(k: int, n: nat): (h: nat)
    requires n > 0
    ensures 1 <= h <= n
  {
    AsSize(k - 1) % n + 1
  }

  /** The slot examined by iteration j (counted from 0) of every probe loop: the loop
      starts at x = FirstKeyHash and, after examining x in its iteration i = j + 1,
      sets x = (x + i * SecondKeyHash) % n. */
  function ProbeAt(k: int, n: nat, j: nat): (x: nat)
    requires n > 0
    ensures x < n
  {
    if j == 0 then FirstKeyHash(k, n)
    else (ProbeAt(k, n, j - 1) + j * SecondKeyHash(k, n)) % n
  }

  /** A positive multiple of a positive number is at least that number. */
  lemma {:induction false} MulAtLeast(m: int, n: int)
    requires m >= 1 && n > 0
    ensures m * n >= n
  {
    if m > 1 {
      MulAtLeast(m - 1, n);
      assert m * n == (m - 1) * n + n;
    }
  }

  /** A quotient and remainder pair that fits the division identity is the one `%` gives. */
  lemma ModUnique(a: int, n: nat, q: int, r: int)
    requires n > 0 && a == q * n + r && 0 <= r < n
    ensures a % n == r
  {
    var d := a / n;
    assert a == d * n + a % n;
    var m := q - d;
    assert m * n == a % n - r by {
      assert m * n == q * n - d * n;
    }
    if m >= 1 {
      MulAtLeast(m, n);
    } else if m <= -1 {
      MulAtLeast(-m, n);
    }
  }

  /** Adding whole multiples of n does not change a remainder modulo n. */
  lemma ModAddMultiple(x: int, q: nat, n: nat)
    requires n > 0
    ensures (x + q * n) % n == x % n
  {
    var d := x / n;
    assert x == d * n + x % n;
    assert x + q * n == (d + q) * n + x % n;
    ModUnique(x + q * n, n, d + q, x % n);
  }

  /** Taking the remainder of the left summand first does not change the result. */
  lemma ModOfSum(a: nat, b: nat, n: nat)
    requires n > 0
    ensures (a % n + b) % n == (a + b) % n
  {
    var q := a / n;
    assert a == q * n + a % n;
    assert a + b == (a % n + b) + q * n;
    ModAddMultiple(a % n + b, q, n);
  }

  /** 1 + 2 + ... + j. */
  function Triangle(j: nat): nat
  {
    if j == 0 then 0 else Triangle(j - 1) + j
  }

  /** The closed form of the triangular numbers. */
  lemma {:induction false} TriangleClosedForm(j: nat)
    ensures Triangle(j) == j * (j + 1) / 2
  {
    if j > 0 {
      TriangleClosedForm(j - 1);
      var sq := j * j;
      assert (j - 1) * j == sq - j;
      assert j * (j + 1) == sq + j;
    }
  }

  /** Multiplication distributes over a sum of two counts. */
  lemma MulAddRight(a: int, b: int, y: int)
    ensures (a + b) * y == a * y + b * y
  {
  }

  /** The offsets from the start grow by triangular multiples of the step:
      iteration j examines start + (1 + 2 + ... + j) * step, modulo n. */
  lemma {:induction false} ProbeIsTriangular(k: int, n: nat, j: nat)
    requires n > 0
    ensures ProbeAt(k, n, j) == (FirstKeyHash(k, n) + Triangle(j) * SecondKeyHash(k, n)) % n
    ensures ProbeAt(k, n, j) == (FirstKeyHash(k, n) + j * (j + 1) / 2 * SecondKeyHash(k, n)) % n
  {
    var h, y := FirstKeyHash(k, n), SecondKeyHash(k, n);
    TriangleClosedForm(j);
    if j == 0 {
      ModUnique(h, n, 0, h);
    } else {
      ProbeIsTriangular(k, n, j - 1);
      var t := Triangle(j - 1);
      MulAddRight(t, j, y);
      ModOfSum(h + t * y, j * y, n);
    }
  }

  /** For a positive key the step equals the table size, and so never moves the
      probe, exactly when the key is a multiple of the table size. */
  lemma StepIsSizeIff(k: int, n: nat)
    requires n > 0 && 0 < k < SizeTModulus
    ensures SecondKeyHash(k, n) == n <==> k % n == 0
  {
    assert AsSize(k - 1) == k - 1;
    var q, r := (k - 1) / n, (k - 1) % n;
    assert k - 1 == q * n + r;
    if r == n - 1 {
      assert k == (q + 1) * n + 0;
      ModUnique(k, n, q + 1, 0);
    }
    if k % n == 0 {
      var m := k / n;
      assert k == m * n;
      if m <= 0 {
        MulAtLeast(1 - m, n);
      }
      assert k - 1 == (m - 1) * n + (n - 1);
      ModUnique(k - 1, n, m - 1, n - 1);
    }
  }

  /** When the step equals the table size the probe examines the same slot in every
      iteration, so the loops see only one slot of the table. */
  lemma {:induction false} ProbeStalls(k: int, n: nat, j: nat)
    requires n > 0 && SecondKeyHash(k, n) == n
    ensures ProbeAt(k, n, j) == FirstKeyHash(k, n)
  {
    if j > 0 {
      ProbeStalls(k, n, j - 1);
      var h := FirstKeyHash(k, n);
      ModAddMultiple(h, j, n);
      ModUnique(h, n, 0, h);
    }
  }

  /** Key 0 wraps to 2^64 - 1 in SecondKeyHash, so it stalls in the power-of-two
      sizes that growth produces from 32, but not in the default size 37. */
  lemma ZeroKeyStep()
    ensures SecondKeyHash(0, 32) == 32 && SecondKeyHash(0, 64) == 64
    ensures SecondKeyHash(0, 37) != 37
  {
  }
}
