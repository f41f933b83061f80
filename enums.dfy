/** Chapter 4: refining enums.

    The refined `Option` lives in module `Options`. This module holds the
    unreachable-code tests, safe division, the smart constructor of
    `Positivei32` returning an `Option`, and the `Timer` typestate.
    `unreachable()` has the precondition `false`; a call to it is modelled by
    `assert false` at the call site, which verifies exactly when the path
    leading there is infeasible. */
module Enums {
  import opened Options
  import opened Structs

  // ---------------------------------------------------------------------------
  // Checking code is unreachable

  /** The branch condition `x < 12` of both tests. */
  predicate BelowTwelve(x: int)
  {
    x < 12
  }

  /** `test_unreachable_if`: with `n >= 0`, `12 + n < 12` is impossible. */
  method TestUnreachableIf(n: nat)
  {
    var x := 12 + n;
    if BelowTwelve(x) {
      assert false; // unreachable()
    }
  }

  /** `test_unreachable_match`: the same test, with the `if` written as a `match`. */
  method TestUnreachableMatch(n: nat)
  {
    var x := 12 + n;
    var b := BelowTwelve(x);
    match b {
      case true =>
        assert false; // unreachable()
      case false =>
    }
  }

  /** For every `n >= 0` the tests take the `false` arm: the `true` arm's path
      fact is unsatisfiable, so the call to `unreachable()` there verifies, and
      the `false` arm is always taken, so a call placed there could not be. */
  lemma UnreachableArmsDecided(n: nat)
    ensures !BelowTwelve(12 + n)
  {
  }

  // ---------------------------------------------------------------------------
  // Safe division

  /** Rust's `/` on integers: the quotient rounded toward zero (Dafny's own `/`
      is Euclidean and rounds a negative dividend down). The remainder it leaves
      has the sign of the dividend and is smaller than the divisor. */
  function TruncDiv(n: int, k: int): (q: int)
    requires k > 0
    ensures 0 <= n ==> 0 <= n - q * k < k
    ensures n < 0 ==> -k < n - q * k <= 0
  {
    if 0 <= n then n / k else -((-n) / k)
  }

  /** Truncating and Euclidean division differ on a negative dividend. */
  lemma TruncDivDiffersFromEuclidean()
    ensures TruncDiv(-7, 2) == -3
    ensures -7 / 2 == -4
  {
  }

  /** `safe_divide`: `Some(n / k)` when `k > 0`, `None` otherwise. The contract
      is the fixed spec `fn(n:i32, k:i32) -> Option<i32>[k > 0]`, with the payload. */
  function SafeDivide(n: int, k: int): (r: Option<int>)
    ensures r.Valid() <==> k > 0
    ensures r.Some? ==> r.value == TruncDiv(n, k)
  {
    if k > 0 then Some(TruncDiv(n, k)) else None
  }

  // Flux checks a caller against the callee's signature alone. The predicates
  // below state what a signature lets a caller assume about the result.

  /** The declared signature `fn(n:i32, k:i32) -> Option<i32>` carries no
      index: a caller may assume any `Option<int>`. */
  predicate SafeDivideSpecAsWritten(n: int, k: int, r: Option<int>)
  {
    true
  }

  /** The fixed signature `fn(n:i32, k:i32) -> Option<i32>[k > 0]`. */
  predicate SafeDivideSpec(n: int, k: int, r: Option<int>)
  {
    r.Valid() <==> k > 0
  }

  /** `safe_divide` meets both signatures. The declared one admits `None` for
      `safe_divide(10, 2)`, on which the `unwrap` of `test_safe_divide` is
      rejected; every result the fixed one admits there is valid. */
  lemma SafeDivideNeedsIndex(n: int, k: int)
    ensures SafeDivideSpecAsWritten(n, k, SafeDivide(n, k)) && SafeDivideSpec(n, k, SafeDivide(n, k))
    ensures SafeDivideSpecAsWritten(10, 2, None) && !Option<int>.None.Valid()
    ensures forall r :: SafeDivideSpec(10, 2, r) ==> r.Valid()
  {
  }

  /** `test_safe_divide`: `unwrap` on `safe_divide(10, 2)`. Dafny shows the body
      of `safe_divide` to this caller; `SafeDivideNeedsIndex` states why Flux,
      which shows only the signature, needs the fixed spec. */
  function TestSafeDivide(): (r: int)
    ensures r == 5
  {
    SafeDivide(10, 2).Unwrap()
  }

  // ---------------------------------------------------------------------------
  // Smart constructors revisited

  /** Chapter 4's `Positivei32::new`: `Some` exactly when `val > 0`, and then a
      payload that satisfies the invariant and carries index `val`. The contract
      is the fixed spec `fn(val: i32) -> Option<Self>[val > 0]`. */
  function NewPositive(val: int): (r: Option<Positivei32>)
    ensures r.Valid() <==> val > 0
    ensures r.Some? ==> r.value.Invariant() && r.value.N() == val
  {
    if val > 0 then Some(Positivei32(val)) else None
  }

  /** The declared signature `fn(val: i32) -> Option<Self>` only promises that a
      payload, if any, satisfies the invariant. */
  predicate NewPositiveSpecAsWritten(val: int, r: Option<Positivei32>)
  {
    r.Some? ==> r.value.Invariant()
  }

  /** The fixed signature `fn(val: i32) -> Option<Self>[val > 0]`. */
  predicate NewPositiveSpec(val: int, r: Option<Positivei32>)
  {
    (r.Valid() <==> val > 0) && NewPositiveSpecAsWritten(val, r)
  }

  /** The function meets both signatures. The declared one admits `None` for
      `new(10)`, on which `unwrap` is rejected; every result the fixed one
      admits there is valid. */
  lemma NewPositiveSpecAsWrittenTooWeak(val: int)
    ensures NewPositiveSpecAsWritten(val, NewPositive(val)) && NewPositiveSpec(val, NewPositive(val))
    ensures NewPositiveSpecAsWritten(10, None) && !Option<Positivei32>.None.Valid()
    ensures forall r :: NewPositiveSpec(10, r) ==> r.Valid()
  {
  }

  /** `test_new_unwrap`: the unwrapped payload of `new(10)` has index `10`.
      Dafny shows the body of `new` to this caller; the lemma above states why
      Flux needs the fixed spec. */
  function TestNewUnwrap(): (p: Positivei32)
    ensures p.Invariant() && p.N() == 10
  {
    NewPositive(10).Unwrap()
  }

  // ---------------------------------------------------------------------------
  // Timer: refined_by(remaining: int)

  /** The two variants of `Timer`. */
  datatype TimerState = Inactive | CountDown(n: nat) {

    /** The index `remaining`: `Inactive` has `0`, `CountDown(n)` has `n`. */
    function Remaining(): nat
    {
      match this
      case Inactive => 0
      case CountDown(n) => n
    }
  }

  /** The effect of one `tick` on a timer: a positive count goes down by one;
      `CountDown(0)` and `Inactive` are left alone. */
  function TickState(t: TimerState): (u: TimerState)
    ensures u.Remaining() == if t.Remaining() > 1 then t.Remaining() - 1 else 0
    ensures u.Inactive? <==> t.Inactive?
    ensures t.Remaining() == 0 ==> u == t
  {
    match t
    case CountDown(s) => if s > 0 then CountDown(s - 1) else t
    case Inactive => t
  }

  /** `k` ticks in a row. */
  function Ticks(t: TimerState, k: nat): TimerState
    decreases k
  {
    if k == 0 then t else Ticks(TickState(t), k - 1)
  }

  /** After `k` ticks the remaining count has gone down by `k`, stopping at `0`,
      and the variant is unchanged. */
  lemma {:induction false} TicksRemaining(t: TimerState, k: nat)
    ensures Ticks(t, k).Remaining() == if t.Remaining() > k then t.Remaining() - k else 0
    ensures Ticks(t, k).Inactive? <==> t.Inactive?
    decreases k
  {
    if k > 0 {
      TicksRemaining(TickState(t), k - 1);
    }
  }

  /** A timer started at `n` has expired after `n` ticks, so it may be deactivated. */
  lemma CountDownExpires(n: nat)
    ensures Ticks(CountDown(n), n) == CountDown(0)
  {
    TicksRemaining(CountDown(n), n);
  }

  /** The declared spec of `tick`, `ensures self: Self`, forgets the index: after
      a tick the timer may be in any state. */
  predicate TickSpecAsWritten(before: TimerState, after: TimerState)
  {
    true
  }

  /** The commented-out spec `ensures self: Self[if n > 1 then n - 1 else 0]`. */
  predicate TickSpec(before: TimerState, after: TimerState)
  {
    after.Remaining() == if before.Remaining() > 1 then before.Remaining() - 1 else 0
  }

  /** One tick meets both specs. Under the declared one each of the three ticks
      of `test_tick` may leave `CountDown(3)` as it was, which `deactivate`
      rejects; under the fixed one every admitted run of three ticks from
      `new(3)` ends with index `0`. */
  lemma TickNeedsIndex(t: TimerState)
    ensures TickSpecAsWritten(t, TickState(t)) && TickSpec(t, TickState(t))
    ensures TickSpecAsWritten(CountDown(3), CountDown(3)) && CountDown(3).Remaining() != 0
    ensures forall a, b, c ::
              TickSpec(CountDown(3), a) && TickSpec(a, b) && TickSpec(b, c) ==> c.Remaining() == 0
  {
  }

  /** A `Timer` value that methods update in place through `&mut self`. */
  class Timer {
    var state: TimerState

    /** The index `remaining` of the current state. */
    function Remaining(): nat
      reads this
    {
      state.Remaining()
    }

    /** `Timer::new`: `fn(n: usize) -> Timer[n]`. */
    constructor (n: nat)
      ensures state == CountDown(n)
      ensures Remaining() == n
    {
      state := CountDown(n);
    }

    /** `deactivate`: `fn(self: &mut Self[0])`, only on an expired timer. */
    method Deactivate()
      requires Remaining() == 0
      modifies this
      ensures state == Inactive
      ensures Remaining() == 0
    {
      state := Inactive;
    }

    /** `tick`, with the spec of the commented-out signature
        `ensures self: Self[if n > 1 then n - 1 else 0]`. */
    method Tick()
      modifies this
      ensures state == TickState(old(state))
      ensures Remaining() == if old(Remaining()) > 1 then old(Remaining()) - 1 else 0
    {
      match state {
        case CountDown(s) =>
          var n := s;
          if n > 0 {
            state := CountDown(n - 1);
          }
        case Inactive =>
      }
    }
  }

  /** `test_deactivate`: `new(0)` may be deactivated; `new(3)` has index `3`,
      so the precondition `remaining == 0` of `deactivate` fails for it. */
  method TestDeactivate()
  {
    var t0 := new Timer(0);
    t0.Deactivate();
    var t3 := new Timer(3);
    assert t3.Remaining() == 3;
    // t3.Deactivate() is rejected.
  }

  /** `test_tick`: `new(3)`, three ticks, then `deactivate`. */
  method TestTick()
  {
    var t := new Timer(3);
    t.Tick();
    t.Tick();
    t.Tick();
    t.Deactivate();
  }
}
