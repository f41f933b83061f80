/** Chapter 1: refining the primitive types.

    A Flux index `i32[e]` becomes an equation on the result, an existential
    `i32{v: p}` becomes a postcondition `p` on the named result, and a
    constrained parameter `usize{s + k <= 100}` becomes a precondition.
    Machine integers are mathematical here (`i32` is `int`, `usize` is `nat`):
    like the tutorial, the model does not check overflow. */
module Refinements {

  // ---------------------------------------------------------------------------
  // Post-conditions: mk_ten

  /** `mk_ten` as written: its declared type is `fn() -> i32[10]`, its body
      `5 + 4`, which misses the declared index. */
  function MkTen(): (r: int)
    ensures r != 10
  {
    5 + 4
  }

  /** The body evaluates to nine, so the declared index `10` is not met. */
  lemma MkTenMissesPostcondition()
    ensures MkTen() == 9
    ensures MkTen() != 10
  {
  }

  /** `mk_ten` with the body edited to `5 + 5`, one of the two fixes the text offers. */
  function MkTenFixed(): (r: int)
    ensures r == 10
  {
    5 + 5
  }

  // ---------------------------------------------------------------------------
  // Pre-conditions: assert

  /** The refinement `bool[true]` on the parameter of `assert`. */
  predicate AssertPre(b: bool)
  {
    b
  }

  /** `assert`: only callable with `true`; its panic branch is dead, so it
      returns, and then `b` holds. */
  method Assert(b: bool)
    requires AssertPre(b)
    ensures b
  {
    if !b {
      assert false; // panic!("assertion failed") is unreachable
    }
  }

  /** `test_assert`: the first call meets the precondition, the second would not. */
  method TestAssert()
  {
    Assert(2 + 2 == 4);
    AssertCallsDecided();
    // Assert(2 + 2 == 5) is rejected: its argument is `false`.
  }

  /** The precondition of `assert` holds for `2 + 2 == 4` and fails for `2 + 2 == 5`. */
  lemma AssertCallsDecided()
    ensures AssertPre(2 + 2 == 4)
    ensures !AssertPre(2 + 2 == 5)
  {
  }

  // ---------------------------------------------------------------------------
  // Index parameters: is_pos

  /** `is_pos`: `fn(n:i32) -> bool[0 < n]`, true exactly when `n` is positive. */
  function IsPos(n: int): (r: bool)
    ensures r <==> 0 < n
  {
    if 0 < n then true else false
  }

  /** `test_pos`: `m` is `n - 1` on the positive branch and `0` otherwise, so the
      call `assert(0 <= m)` is justified by the index of `is_pos`. The local `m`
      is returned so that what the check establishes is stated. */
  method TestPos(n: int) returns (m: int)
    ensures 0 <= m
  {
    m := if IsPos(n) then n - 1 else 0;
    Assert(0 <= m);
  }

  // ---------------------------------------------------------------------------
  // Existential types: mk_ten_pos and abs

  /** `mk_ten_pos`: `fn() -> i32{v: 0 < v}`. */
  function MkTenPos(): (v: int)
    ensures 0 < v
  {
    5 + 5
  }

  /** `abs`: `fn(n:i32) -> i32{v: 0 <= v && n <= v}`; the then-branch knows
      `0 <= n`, the else-branch knows `!(0 <= n)`. */
  function Abs(n: int): (v: int)
    ensures 0 <= v && n <= v
  {
    if 0 <= n then n else 0 - n
  }

  // ---------------------------------------------------------------------------
  // Combining indexes and constraints: add_points

  /** The constraint `s + k <= 100` on the parameters of `add_points`. */
  predicate AddPointsPre(s: nat, k: nat)
  {
    s + k <= 100
  }

  /** `add_points`: `fn(s:usize{s + k <= 100}, k:usize) -> usize[s + k]`. */
  function AddPoints(s: nat, k: nat): (r: nat)
    requires AddPointsPre(s, k)
    ensures r == s + k
    ensures r <= 100
  {
    s + k
  }

  /** `test_add_points`: the call `(20, 30)` is accepted and yields `50`. */
  method TestAddPoints()
  {
    var r := AddPoints(20, 30);
    Assert(r == 50);
    // AddPoints(90, 30) is rejected: see AddPointsCallsDecided.
  }

  /** `(20, 30)` meets the precondition and gives `50`; `(90, 30)` does not meet it. */
  lemma AddPointsCallsDecided()
    ensures AddPointsPre(20, 30) && AddPoints(20, 30) == 50
    ensures !AddPointsPre(90, 30)
  {
  }

  // ---------------------------------------------------------------------------
  // factorial

  /** The mathematical factorial, `1` for every `n <= 0`. */
  function Fact(n: int): int
    decreases if n < 0 then 0 else n
  {
    if n <= 0 then 1 else n * Fact(n - 1)
  }

  /** The factorial satisfies the declared output refinement `1 <= v && n <= v`. */
  lemma {:induction false} FactBounds(n: int)
    ensures 1 <= Fact(n)
    ensures n <= Fact(n)
  {
    if n > 0 {
      FactBounds(n - 1);
      assert n * Fact(n - 1) >= n * 1;
    }
  }

  /** `factorial` as written: `res` starts at `0` and is only ever multiplied,
      so the result is `0` and the declared `1 <= v && n <= v` never holds. */
  method Factorial(n: int) returns (res: int)
    ensures res == 0
    ensures !(1 <= res && n <= res)
  {
    var i := 0;
    res := 0;
    while i < n
      invariant res == 0
    {
      i := i + 1;
      res := res * i;
    }
  }

  /** `factorial` with `res` initialised to `1`: it computes `Fact(n)` and
      meets the declared output refinement. */
  method FactorialFixed(n: int) returns (res: int)
    ensures res == Fact(n)
    ensures 1 <= res && n <= res
  {
    var i := 0;
    res := 1;
    while i < n
      invariant 0 <= i <= if n < 0 then 0 else n
      invariant res == Fact(i)
    {
      i := i + 1;
      res := res * i;
    }
    FactBounds(n);
  }
}
