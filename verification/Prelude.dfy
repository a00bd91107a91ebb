/** Machine integers, optional values and hashes shared by all modules. */
module Prelude {

  type byte = b: int | 0 <= b < 256

  const U32_MAX := 0xFFFF_FFFF
  const U64_MAX := 0xFFFF_FFFF_FFFF_FFFF

  type u64 = n: int | 0 <= n <= U64_MAX

  datatype Option<+T> = None | Some(value: T)

  datatype Result<+T, +E> = Ok(value: T) | Err(error: E) {
    predicate IsFailure() { Err? }

    function PropagateFailure<U>(): Result<U, E>
      requires Err?
    {
      Err(error)
    }

    function Extract(): T
      requires Ok?
    {
      value
    }
  }

  function Min(a: nat, b: nat): nat { if a <= b then a else b }

  /** A 64-bit unsigned addition that stops at the largest value. */
  function SaturatingAdd(a: nat, b: nat): nat {
    if a + b <= U64_MAX then a + b else U64_MAX
  }

  lemma {:induction false} MulMonotone(a: nat, b: nat, m: nat)
    ensures a < b ==> a * m + m <= b * m
  {
    if a < b {
      assert b * m == (b - 1) * m + m;
      MulMonotone(a, b - 1, m);
    }
  }

  /** A number has only one quotient and remainder. */
  lemma RemainderIsUnique(n: nat, q: nat, r: nat, m: nat)
    requires n == q * m + r && r < m
    ensures n % m == r && n / m == q
  {
    assert n == (n / m) * m + n % m;
    MulMonotone(q, n / m, m);
    MulMonotone(n / m, q, m);
  }

  /** A 32-byte digest. */
  type Hash = h: seq<byte> | |h| == 32 witness ZeroBytes(32)

  /** SHA-256 is any function from byte strings to digests. */
  type Sha = seq<byte> -> Hash

  function ZeroBytes(n: nat): (s: seq<byte>)
    ensures |s| == n
  {
    seq(n, _ => 0)
  }

  const DEFAULT_HASH: Hash := ZeroBytes(32)

  /** `x` and `y` are two different inputs with the same digest. */
  predicate Collide(sha: Sha, x: seq<byte>, y: seq<byte>) {
    x != y && sha(x) == sha(y)
  }
}
