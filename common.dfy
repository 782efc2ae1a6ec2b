/** Shared value types: bytes, bits, small arithmetic helpers and the
    Option/Result wrappers used for the program's error paths. */
module Common {

  /** An 8-bit sample or byte, as numpy's uint8 and Python's bytes hold it. */
  type Byte = b: int | 0 <= b < 256

  /** One character of the program's '0'/'1' bit strings. */
  type Bit = b: int | 0 <= b < 2

  datatype Option<T> = None | Some(value: T)

  datatype Result<T, E> = Ok(value: T) | Err(error: E)

  function Min(a: int, b: int): (m: int)
    ensures m <= a && m <= b && (m == a || m == b)
  {
    if a <= b then a else b
  }

  function Max(a: int, b: int): (m: int)
    ensures m >= a && m >= b && (m == a || m == b)
  {
    if a >= b then a else b
  }

  function Pow2(n: nat): (p: nat)
    ensures p >= 1
  {
    if n == 0 then 1 else 2 * Pow2(n - 1)
  }

  lemma {:induction false} Pow2Monotone(a: nat, b: nat)
    requires a <= b
    ensures Pow2(a) <= Pow2(b)
  {
    if a < b {
      Pow2Monotone(a, b - 1);
    }
  }

  /** The first n elements, or all of them when there are fewer (Python s[:n]). */
  function Take<T>(s: seq<T>, n: nat): (r: seq<T>)
    ensures |r| == Min(n, |s|)
    ensures r == s[..|r|]
  {
    s[..Min(n, |s|)]
  }

  /** Everything after the first n elements (Python s[n:]). */
  function Drop<T>(s: seq<T>, n: nat): (r: seq<T>)
    ensures |r| == |s| - Min(n, |s|)
    ensures r == s[|s| - |r|..]
  {
    s[Min(n, |s|)..]
  }

  /** Euclidean division by m is determined by quotient and remainder. */
  lemma DivUnique(n: int, m: int, q: int, r: int)
    requires m >= 1 && 0 <= r < m && n == m * q + r
    ensures n / m == q && n % m == r
  {
    var q', r' := n / m, n % m;
    assert m * q + r == m * q' + r';
    if q > q' {
      assert m * (q - q') == r' - r;
      MulAtLeast(m, q - q');
    } else if q < q' {
      assert m * (q' - q) == r - r';
      MulAtLeast(m, q' - q);
    }
  }

  lemma MulAtLeast(m: int, x: int)
    requires m >= 1 && x >= 1
    ensures m * x >= m
  {
  }

  /** Taking n from a + b takes all of a that fits, then the rest from b. */
  lemma TakeAppend<T>(a: seq<T>, b: seq<T>, n: nat)
    ensures Take(a + b, n) == if |a| >= n then Take(a, n) else a + Take(b, n - |a|)
  {
    if |a| >= n {
      assert (a + b)[..n] == a[..n];
    } else {
      assert (a + b)[..Min(n, |a| + |b|)] == a + b[..Min(n - |a|, |b|)];
    }
  }

  /** A prefix grows by one element at a time. */
  lemma TakeOneMore<T>(s: seq<T>, n: nat)
    requires n < |s|
    ensures s[..n + 1] == s[..n] + [s[n]]
  {
  }
}
