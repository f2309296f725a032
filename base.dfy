/** Small shared vocabulary: an optional value, powers of two, and the
    bitwise AND of two non-negative integers (the C `&` used by the slot
    table to compute a main position). */
module Base {

  datatype Option<T> = None | Some(value: T)

  /** n is one of 1, 2, 4, 8, ... */
  ghost predicate IsPow2(n: int)
    decreases if n > 0 then n else 0
  {
    n == 1 || (n > 1 && n % 2 == 0 && IsPow2(n / 2))
  }

  /** Bitwise AND of two non-negative integers, bit by bit from the lowest. */
  function BitAnd(a: nat, b: nat): nat
    decreases a
  {
    if a == 0 || b == 0 then 0
    else 2 * BitAnd(a / 2, b / 2) + (if a % 2 == 1 && b % 2 == 1 then 1 else 0)
  }

  /** Euclidean division is unique: any q, r with a == d*q + r and 0 <= r < d
      are a / d and a % d. */
  lemma DivModUnique(a: int, d: int, q: int, r: int)
    requires d > 0 && a == d * q + r && 0 <= r < d
    ensures a / d == q && a % d == r
  {
    var q0, r0 := a / d, a % d;
    assert a == d * q0 + r0;
    var k := q - q0;
    assert d * k == r0 - r by {
      assert d * q - d * q0 == d * (q - q0);
    }
    if k > 0 {
      MulAtLeast(d, k);
    } else if k < 0 {
      MulAtLeast(d, -k);
    }
  }

  lemma MulAtLeast(d: int, k: int)
    requires d > 0 && k >= 1
    ensures d * k >= d
  {
    assert d * k == d * (k - 1) + d;
    assert d * (k - 1) >= 0;
  }

  /** Splitting off the lowest bit: a mod 2m is twice (a/2 mod m) plus a's lowest bit. */
  lemma ModOfDouble(a: nat, m: nat)
    requires m > 0
    ensures a % (2 * m) == 2 * ((a / 2) % m) + a % 2
  {
    var q, b := a / 2, a % 2;
    var t, s := q / m, q % m;
    assert a == (2 * m) * t + (2 * s + b);
    DivModUnique(a, 2 * m, t, 2 * s + b);
  }

  /** Reducing modulo 2n and then modulo n is reducing modulo n. */
  lemma ModOfModDouble(a: nat, n: nat)
    requires n > 0
    ensures (a % (2 * n)) % n == a % n
    ensures a % (2 * n) == a % n || a % (2 * n) == a % n + n
  {
    var t, r := a / (2 * n), a % (2 * n);
    assert a == (2 * n) * t + r;
    if r < n {
      DivModUnique(a, n, 2 * t, r);
      DivModUnique(r, n, 0, r);
    } else {
      DivModUnique(a, n, 2 * t + 1, r - n);
      DivModUnique(r, n, 1, r - n);
    }
  }

  /** Masking with n - 1, for n a power of two, is reduction modulo n:
      `id & (size - 1) == id % size`. */
  lemma {:induction false} AndLowMask(a: nat, n: nat)
    requires IsPow2(n)
    ensures BitAnd(a, n - 1) == a % n
    decreases n
  {
    if n == 1 {
      assert BitAnd(a, 0) == 0;
    } else if a == 0 {
    } else {
      assert (n - 1) / 2 == n / 2 - 1 && (n - 1) % 2 == 1;
      AndLowMask(a / 2, n / 2);
      ModOfDouble(a, n / 2);
    }
  }

  /** Doubling a power of two gives a power of two. */
  lemma Pow2Double(n: int)
    requires IsPow2(n)
    ensures IsPow2(2 * n) && n >= 1
  {
    assert (2 * n) / 2 == n;
  }

  /** Adding a fresh key to a map and then removing it gives the map back. */
  lemma MapAddRemove<K, V>(E: map<K, V>, k: K, v: V)
    requires k !in E
    ensures E[k := v] - {k} == E
  {
  }
}
