/** Small vocabulary shared by the models: optional values and 64-bit counters. */
module Words {

  datatype Option<+T> = None | Some(value: T)

  /** One more than the largest value of a 64-bit unsigned counter. */
  const TWO_64: nat := 0x1_0000_0000_0000_0000

  type U64 = x: nat | x < TWO_64

  /** Addition of one in 64-bit arithmetic: the largest value wraps to 0. */
  function Next64(a: U64): U64 {
    if a + 1 < TWO_64 then a + 1 else 0
  }

  /** a - b in 64-bit arithmetic: a difference below 0 wraps. */
  function Minus64(a: nat, b: nat): nat
    requires b <= a + TWO_64
  {
    if b <= a then a - b else a + TWO_64 - b
  }

  function Min(a: int, b: int): int {
    if a <= b then a else b
  }

  function Max(a: int, b: int): int {
    if a >= b then a else b
  }

  /** The last n elements of s, or all of s when it is shorter. */
  function Suffix<T>(s: seq<T>, n: nat): seq<T> {
    if n <= |s| then s[|s| - n..] else s
  }

  /** Times in order of arrival, from the first one on that is at most the window before now. */
  function DropOld(at: seq<int>, now: int, window: int): seq<int> {
    if at == [] || now - at[0] <= window then at else DropOld(at[1..], now, window)
  }

  lemma ScaleMonotone(a: nat, b: nat, n: nat)
    requires a <= b
    ensures a * n <= b * n
  {}

  /** One trip round a circular buffer of n. */
  lemma ModuloOnce(a: nat, n: nat)
    requires 0 < n && a < 2 * n
    ensures a % n == if a < n then a else a - n
  {
    if n <= a {
      var q, r := a / n, a % n;
      assert q * n + r == a;
      assert q < 2 by { if 2 <= q { ScaleMonotone(2, q, n); } }
      assert q != 0;
    }
  }
}
