/** Machine words, and the wrapping arithmetic that both sequence filters of the shim use. */
module Words {

  type byte = x: nat | x < 0x100
  type u16 = x: nat | x < 0x1_0000
  type u32 = x: nat | x < 0x1_0000_0000

  type Bytes = seq<byte>

  datatype Option<+T> = None | Some(value: T)

  /** The machine index that stands for the unbounded index `n`. */
  function Wrap32(n: int): u32 {
    n % 0x1_0000_0000
  }

  function Wrap16(n: int): u16 {
    n % 0x1_0000
  }

  function WrappingSub(a: u32, b: u32): u32 {
    Wrap32(a - b)
  }

  /** The source's `u32::max_value() / 2`. */
  const HALF_RANGE: u32 := 0x7fff_ffff

  /** The acceptance test `ord.wrapping_sub(expected) < u32::max_value() / 2`. */
  predicate NotOld(ord: u32, expected: u32) {
    WrappingSub(ord, expected) < HALF_RANGE
  }

  /**
   * The distances at which the machine test can tell early from old: up to 2^31-2 ahead,
   * up to 2^31+1 behind.
   */
  predicate InWindow(n: int, expected: int) {
    -0x8000_0001 <= n - expected <= 0x7fff_fffe
  }

  /** Subtracting machine indices gives the machine form of the unbounded difference. */
  lemma WrappingSubWraps(a: int, b: int)
    ensures WrappingSub(Wrap32(a), Wrap32(b)) == Wrap32(a - b)
  {
    var qa, qb := a / 0x1_0000_0000, b / 0x1_0000_0000;
    assert a - b == Wrap32(a) - Wrap32(b) + (qa - qb) * 0x1_0000_0000;
  }

  /** Adding one to the machine index follows adding one to the unbounded index, for ever. */
  lemma WrapNext(n: int, k: int)
    ensures Wrap32(Wrap32(n) + k) == Wrap32(n + k)
  {
    var q := n / 0x1_0000_0000;
    assert n + k == Wrap32(n) + k + q * 0x1_0000_0000;
  }

  lemma Wrap16Next(n: int, k: int)
    ensures Wrap16(Wrap16(n) + k) == Wrap16(n + k)
  {
    var q := n / 0x1_0000;
    assert n + k == Wrap16(n) + k + q * 0x1_0000;
  }

  /**
   * Inside the window the machine test decides exactly the unbounded order, and the window is as
   * large as it can be: one step further on either side and the test answers the opposite.
   */
  lemma WindowIsExact(n: int, expected: int)
    ensures InWindow(n, expected) ==>
              && (NotOld(Wrap32(n), Wrap32(expected)) <==> n >= expected)
              && (Wrap32(n) == Wrap32(expected) <==> n == expected)
              && (n >= expected ==> WrappingSub(Wrap32(n), Wrap32(expected)) == n - expected)
    ensures n == expected + 0x7fff_ffff ==> !NotOld(Wrap32(n), Wrap32(expected))
    ensures n == expected - 0x8000_0002 ==> NotOld(Wrap32(n), Wrap32(expected))
  {
    WrappingSubWraps(n, expected);
  }
}
