/** Small wrapper datatype shared by the whole model. */
module Wrappers {

  datatype Option<+T> = None | Some(value: T) {

    /** The carried value, or `default` when there is none. */
    function GetOr(default: T): T {
      match this
      case Some(v) => v
      case None => default
    }
  }
}

/**
 32-bit sequence-number arithmetic (section 3.4 of RFC 9293 and section 5 of
 RFC 7323). Sequence numbers, windows and bytes are integers constrained to
 their machine width; every wrapping operation of the source is written out
 modulo 2^32.
 */
module SeqNum {

  const MOD: int := 0x1_0000_0000
  const HALF: int := 0x8000_0000
  const MAX_U32: int := 0xFFFF_FFFF

  type u32 = x: int | 0 <= x < 0x1_0000_0000
  type u16 = x: int | 0 <= x < 0x1_0000
  type byte = x: int | 0 <= x < 0x100
  type u64 = x: int | 0 <= x < 0x1_0000_0000_0000_0000

  function Min(a: int, b: int): int { if a <= b then a else b }
  function Max(a: int, b: int): int { if a >= b then a else b }

  /** `u32::wrapping_add`. */
  function WrappingAdd(a: u32, b: int): (r: u32)
    ensures (r - a - b) % MOD == 0
  {
    (a + b) % MOD
  }

  /** `u32::wrapping_sub`. */
  function WrappingSub(a: u32, b: int): (r: u32)
    ensures (r - a + b) % MOD == 0
    ensures 0 <= b <= a ==> r == a - b
    ensures a < b < MOD ==> r == a - b + MOD
  {
    (a - b) % MOD
  }

  /** The forward distance from `a` to `b` around the sequence space: the
      unique `d` in [0, 2^32) with a + d = b modulo 2^32. */
  function Dist(a: u32, b: u32): (d: u32)
    ensures WrappingAdd(a, d) == b
    ensures d == WrappingSub(b, a)
    ensures a == b <==> d == 0
  {
    if a <= b then b - a else b - a + MOD
  }

  /** Reference ordering: `b` lies strictly ahead of `a` by less than half
      the sequence space. */
  predicate Precedes(a: u32, b: u32) {
    0 < Dist(a, b) < HALF
  }

  /** `wrapping_lt` (tcb.rs and mod.rs): lhs - rhs, wrapped, exceeds 2^31. */
  function WrappingLt(lhs: u32, rhs: u32): (r: bool)
    ensures r <==> Precedes(lhs, rhs)
  {
    WrappingSub(lhs, rhs) > HALF
  }

  /** `is_between_wrapped`: strictly after `start` and strictly before `end`. */
  function IsBetweenWrapped(start: u32, x: u32, end: u32): (r: bool)
    ensures r <==> Precedes(start, x) && Precedes(x, end)
    ensures r ==> x != start && x != end
  {
    WrappingLt(start, x) && WrappingLt(x, end)
  }

  lemma WrappingLtIrreflexive(a: u32)
    ensures !WrappingLt(a, a)
  {
  }

  /** For distinct numbers not exactly half the space apart, exactly one
      precedes the other; at distance 2^31 neither does. */
  lemma WrappingLtTrichotomy(a: u32, b: u32)
    ensures Dist(a, b) != HALF && a != b ==> (WrappingLt(a, b) <==> !WrappingLt(b, a))
    ensures Dist(a, b) == HALF ==> !WrappingLt(a, b) && !WrappingLt(b, a)
  {
    if a != b {
      assert Dist(b, a) == MOD - Dist(a, b);
    }
  }

  /** The ordering wraps: 0xFFFFFFF0 comes before 0x10. */
  lemma WrapAroundExample()
    ensures WrappingLt(0xFFFF_FFF0, 0x10)
    ensures !WrappingLt(0x10, 0xFFFF_FFF0)
  {
  }

  /** Advancing by a positive amount below 2^31 moves forward. */
  lemma AdvanceIsLater(a: u32, k: int)
    requires 0 < k < HALF
    ensures WrappingLt(a, WrappingAdd(a, k))
    ensures Dist(a, WrappingAdd(a, k)) == k
  {
  }

  /** Advancing `b` by `n` moves it `n` further from `a`, as long as the
      total stays inside the sequence space. */
  lemma DistAfterAdvance(a: u32, b: u32, n: nat)
    requires Dist(a, b) + n < MOD
    ensures Dist(a, WrappingAdd(b, n)) == Dist(a, b) + n
  {
  }

  /** When `end` lies less than half the space after `start`,
      `is_between_wrapped` is ordinary strict containment measured from `start`. */
  lemma BetweenIsOpenInterval(start: u32, x: u32, end: u32)
    requires Dist(start, end) < HALF
    ensures IsBetweenWrapped(start, x, end) <==> 0 < Dist(start, x) < Dist(start, end)
  {
    var dx := Dist(start, x);
    var de := Dist(start, end);
    if dx < de {
      assert Dist(x, end) == de - dx;
    } else if dx > de {
      assert Dist(x, end) == de - dx + MOD;
    }
  }

  /** `is_between_wrapped` is strict at both ends. */
  lemma BetweenIsStrict(start: u32, end: u32)
    ensures !IsBetweenWrapped(start, start, end)
    ensures !IsBetweenWrapped(start, end, end)
  {
  }
}
