# Flux tutorial examples, modelled in Dafny

The repository is a tutorial for Flux, a refinement-type checker for Rust.
It contains no checker of its own. Each chapter is a Rust file of small
example functions annotated with Flux specifications, together with tests
that Flux should accept or reject. This project models the example programs
of chapters 1, 3 and 4 and their annotations. It proves that each program
meets its annotation. Where the tutorial says an example is rejected, it
proves the fact that makes Flux reject it.

How the annotations are read:

- `#[spec(fn(..) -> T[e])]` becomes an `ensures` equating the named result with `e`.
- An existential `T{v: p}` becomes `ensures p`.
- A constrained parameter `usize{s + k <= 100}` becomes a `requires`.
- A `refined_by` index becomes a function of the value: `Positivei32.N()`,
  `Option.Valid()`, `TimerState.Remaining()`. For `Range` the indices have the
  fields' names, so the fields serve as indices.
- An `invariant` becomes a predicate `Invariant()`. A Flux return type
  `Positivei32` or `Range` means the invariant holds of the result
  (`ensures r.Invariant()`). A parameter of that type means it holds of the
  argument (`requires`).
- The `defs!` refinement functions `min` and `max` are the ghost functions
  `MinLogic` and `MaxLogic`.
- `i32` is `int` and `usize` is `nat`. As in the tutorial, overflow is not checked.

Modules: `Refinements` (chapter 1), `Options` (the refined `Option` of
chapter 4, also used by chapter 3's `new_opt`), `Structs` (chapter 3) and
`Enums` (chapter 4). Chapter 4 declares `Positivei32` again with the same
annotations. `Enums` reuses the one from `Structs`.

Broken exercises keep the body as written. A lemma states the failure the
text describes:

- `mk_ten` returns 9.
- `factorial` returns 0.
- The spec-less `new` constructors can break their invariants.
- `new_opt` returns an invalid payload.

Where the text asks the reader to fix the code, a separate member holds the
fix: `MkTenFixed`, `FactorialFixed`, and `Enums.NewPositive` for `new_opt`.

Where the text asks the reader to fix only a spec, the member carries the
fixed spec. Flux checks every caller against the callee's signature alone.
So, for each such exercise, a predicate states what the declared signature
lets a caller assume and another states the fixed signature. A lemma then
shows a result the declared signature admits on which the caller's check
fails, and that every result the fixed signature admits passes it. This
applies to:

- chapter 3's `Positivei32::new` (`fn(val: i32{val > 0}) -> Self[val]`): `TestNewNeedsIndex`
- `Range::new` (`fn(start: i32, end: i32{start <= end}) -> Self[start, end]`): `TestRangeNewNeedsIndex`
- `min`/`max` (`i32[min(x, y)]`, `i32[max(x, y)]`), for the free `union`: `UnionNeedsMinMaxSpecs`
- the `union` method (from the smaller start to the larger end): `TestUnionNeedsIndex`
- `safe_divide` (`Option<i32>[k > 0]`): `SafeDivideNeedsIndex`
- chapter 4's `Positivei32::new` (`Option<Self>[val > 0]`): `NewPositiveSpecAsWrittenTooWeak`
- `tick` (the commented-out spec at crate/src/ch04_enums.rs:534): `TickNeedsIndex`

For the two `new` constructors of chapter 3, the spec-less body also breaks
the invariant its own return type demands. `Positivei32.New` and `Range.New`
carry the fixed specs, whose preconditions remove that failure.

A call `assert(b)` in a test that is a pure function is Dafny's `assert b`.
Both demand a proof of `b`. In the chapter 1 methods it is a call to
`Refinements.Assert`.

`unreachable()` has the precondition `false`. Its calls are written as
`assert false` at the call site. That assertion verifies exactly when the
path leading there is infeasible.

`Timer::deactivate` overwrites `*self`, and `tick` writes through a `&mut`
binding. So `Timer` is a class with one mutable field, `state`, and those two
methods modify it.

## Model

| member | source | states |
|---|---|---|
| `Refinements.MkTen` | crate/src/ch01_refinements.rs:100-103 | as written, `mk_ten` returns a value other than the declared index 10 |
| `Refinements.MkTenMissesPostcondition` | crate/src/ch01_refinements.rs:103-134 | the body `5 + 4` of `mk_ten` evaluates to 9, so the declared index 10 is not met |
| `Refinements.MkTenFixed` | crate/src/ch01_refinements.rs:129-134 | with the body edited to `5 + 5` the result is exactly 10 |
| `Refinements.Assert` | crate/src/ch01_refinements.rs:146-149 | callable only with `true`; the panic branch is dead, so the call returns and `b` holds afterwards |
| `Refinements.AssertCallsDecided` | crate/src/ch01_refinements.rs:146-164 | `assert` demands `true`: its precondition holds for `2 + 2 == 4` and fails for `2 + 2 == 5` |
| `Refinements.IsPos` | crate/src/ch01_refinements.rs:200-203 | the result is true if and only if `0 < n` |
| `Refinements.TestPos` | crate/src/ch01_refinements.rs:222-225 | `m = if is_pos(n) { n - 1 } else { 0 }` is never negative, so `assert(0 <= m)` is met for every `n` |
| `Refinements.MkTenPos` | crate/src/ch01_refinements.rs:259-262 | the result is positive |
| `Refinements.Abs` | crate/src/ch01_refinements.rs:280-287 | the result is non-negative and at least `n` |
| `Refinements.AddPoints` | crate/src/ch01_refinements.rs:332-335 | under `s + k <= 100` the result is exactly `s + k`, hence at most 100 |
| `Refinements.AddPointsCallsDecided` | crate/src/ch01_refinements.rs:336-339 | the call `(20, 30)` meets the precondition and yields 50; the call `(90, 30)` violates it |
| `Refinements.FactBounds` | crate/src/ch01_refinements.rs:364 | the factorial meets the declared output refinement `1 <= v && n <= v` for every `n` |
| `Refinements.Factorial` | crate/src/ch01_refinements.rs:364-373 | as written, `res` stays 0 through the loop, so the result is 0 and the declared postcondition fails for every `n` |
| `Refinements.FactorialFixed` | crate/src/ch01_refinements.rs:364-385 | with `res` starting at 1 the loop computes the factorial of `n`, which meets `1 <= v && n <= v` |
| `Options.Option.IsSome` | crate/src/ch04_enums.rs:122-130 | the result equals the index `valid` (true for `Some`, false for `None`) |
| `Options.Option.Unwrap` | crate/src/ch04_enums.rs:275-283 | callable only on a valid option; returns its `Some` payload, the `None` arm being dead |
| `Options.TestSome` | crate/src/ch04_enums.rs:96-99 | `Some(12)` has index `valid == true` |
| `Options.TestNone` | crate/src/ch04_enums.rs:101-104 | `None` has index `valid == false` |
| `Structs.MinLogic` | crate/src/ch03_structs.rs:444-446 | the refinement function `min` is one of its arguments and at most both |
| `Structs.MaxLogic` | crate/src/ch03_structs.rs:447-449 | the refinement function `max` is one of its arguments and at least both |
| `Structs.Min` | crate/src/ch03_structs.rs:418-420 | the executable `min` agrees with the refinement function `min` on all inputs |
| `Structs.Max` | crate/src/ch03_structs.rs:422-424 | the executable `max` agrees with the refinement function `max` on all inputs |
| `Structs.MkPositive1` | crate/src/ch03_structs.rs:85-88 | the literal `{val: 1}` satisfies the invariant `n > 0` |
| `Structs.MkPositive0` | crate/src/ch03_structs.rs:100-103 | the literal `{val: 0}` has index 0 and violates the invariant `n > 0`, so the declared return type is not met |
| `Structs.Positivei32.NewAsWritten` | crate/src/ch03_structs.rs:140-144 | the spec-less `new` yields a value satisfying the invariant exactly when its argument is positive |
| `Structs.NewAsWrittenBreaksInvariant` | crate/src/ch03_structs.rs:128-144 | some argument makes the spec-less `new` break the invariant its return type demands, so Flux rejects it; every positive argument gives a result meeting the fixed spec |
| `Structs.Positivei32.New` | crate/src/ch03_structs.rs:239-259 | with the precondition `val > 0`, `new` establishes the invariant and its index is `val` |
| `Structs.Positivei32.NewOpt` | crate/src/ch03_structs.rs:164-168 | `new_opt` as written is always `Some` with payload index `val`, and the payload is legal exactly when `val > 0` |
| `Structs.NewOptBreaksInvariant` | crate/src/ch03_structs.rs:152-168 | `new_opt` as written returns `Some` for 0 with a payload outside the invariant |
| `Structs.MkPositive10` | crate/src/ch03_structs.rs:187-190 | the result is a legal `Positivei32` with index `n == 10` |
| `Structs.TestTen` | crate/src/ch03_structs.rs:208-213 | reading `val` of `mk_positive_10()` yields exactly 10 |
| `Structs.TestNewNeedsIndex` | crate/src/ch03_structs.rs:241-259 | the return type `Positivei32` of the spec-less `new` admits `{val: 1}` for `new(99)`, on which `test_new`'s `i32[99]` fails; every result the fixed spec admits has `val == 99` |
| `Structs.TestNew` | crate/src/ch03_structs.rs:254-259 | with the fixed `new`, `new(99).val` is exactly 99 |
| `Structs.Positivei32.Decr` | crate/src/ch03_structs.rs:463-469 | on a legal value, `decr` returns a legal value with index `max(1, n - 1)` |
| `Structs.TestDecr` | crate/src/ch03_structs.rs:482-489 | the index goes 2, then 1, then stays 1, and each `assert` is met |
| `Structs.RangeLiteralsDecided` | crate/src/ch03_structs.rs:320-325 | `{start: 0, end: 10}` satisfies `start <= end`, `{start: 15, end: 5}` does not |
| `Structs.Range.NewAsWritten` | crate/src/ch03_structs.rs:366-370 | the spec-less `Range::new` yields a legal range exactly when `start <= end` |
| `Structs.RangeNewAsWrittenBreaksInvariant` | crate/src/ch03_structs.rs:350-370 | some arguments make the spec-less `Range::new` break the invariant its return type demands; every ordered pair gives a result meeting the fixed spec |
| `Structs.TestRangeNewNeedsIndex` | crate/src/ch03_structs.rs:352-378 | the return type `Range` of the spec-less `Range::new` admits `{0, 0}` for `new(0, 10)`, on which `assert(rng.end == 10)` fails; every result the fixed spec admits is `{0, 10}` |
| `Structs.Range.New` | crate/src/ch03_structs.rs:366-370 | with the precondition `start <= end`, `new` builds a legal range whose fields are its arguments |
| `Structs.TestRangeNew` | crate/src/ch03_structs.rs:372-378 | `Range::new(0, 10)` is a legal range with start 0 and end 10 |
| `Structs.UnionNeedsMinMaxSpecs` | crate/src/ch03_structs.rs:397-424 | under the spec-less `min` and `max` the free `union` may get `1` and `0` for two copies of `[0, 0]`, and `{1, 0}` breaks the invariant; under the fixed specs every admitted pair of results is a legal range |
| `Structs.Union` | crate/src/ch03_structs.rs:397-401 | the free `union` builds a legal range starting at the smaller start and ending at `r2.end` |
| `Structs.UnionDropsFirstEnd` | crate/src/ch03_structs.rs:397-401 | the free `union` of `[10, 30]` and `[15, 25]` is `[10, 25]`, which does not contain `[10, 30]` |
| `Structs.Range.Union` | crate/src/ch03_structs.rs:505-512 | the `union` method builds a legal range from the smaller start to the larger end |
| `Structs.UnionIsLeastCover` | crate/src/ch03_structs.rs:386-391 | the `union` method's result contains both ranges and lies inside every range that contains both |
| `Structs.TestUnionNeedsIndex` | crate/src/ch03_structs.rs:505-535 | the declared `-> Self` of the `union` method admits `[0, 0]` for `[10, 20]` and `[15, 25]`, on which `assert(r3.start == 10)` fails; every result the fixed spec admits is `[10, 25]` |
| `Structs.TestUnion` | crate/src/ch03_structs.rs:529-535 | `[10, 20]` united with `[15, 25]` is `[10, 25]` |
| `Enums.UnreachableArmsDecided` | crate/src/ch04_enums.rs:194-252 | for every `n >= 0` the guard `x < 12` with `x = 12 + n` is false: the `unreachable()` call in the true arm is dead, and the false arm is always taken, so a call there would be rejected |
| `Enums.TruncDiv` | crate/src/ch04_enums.rs:327 | Rust's `n / k` for `k > 0`: the remainder has the sign of `n` and is smaller than `k` in magnitude |
| `Enums.TruncDivDiffersFromEuclidean` | crate/src/ch04_enums.rs:327 | `-7 / 2` is -3 in Rust but -4 under Euclidean division |
| `Enums.SafeDivide` | crate/src/ch04_enums.rs:324-331 | the result is valid exactly when `k > 0`, and then holds the truncated quotient |
| `Enums.SafeDivideNeedsIndex` | crate/src/ch04_enums.rs:324-349 | `safe_divide` meets both the declared and the fixed signature; the declared one admits `None` for `safe_divide(10, 2)`, which `unwrap` rejects, and every result the fixed one admits there is valid |
| `Enums.TestSafeDivide` | crate/src/ch04_enums.rs:347-349 | `safe_divide(10, 2).unwrap()` is safe and yields 5 |
| `Enums.NewPositive` | crate/src/ch04_enums.rs:373-382 | the result is `Some` exactly when `val > 0`, and its payload is then legal with index `val` |
| `Enums.NewPositiveSpecAsWrittenTooWeak` | crate/src/ch04_enums.rs:374-403 | the function meets both its declared and the fixed signature; the declared one also admits `None` for `new(10)`, on which `unwrap` fails, and every result the fixed one admits there is valid |
| `Enums.TestNewUnwrap` | crate/src/ch04_enums.rs:401-403 | `new(10).unwrap()` is safe and yields a legal value with index 10 |
| `Enums.TickState` | crate/src/ch04_enums.rs:540-553 | one tick takes `remaining` from `s` to `if s > 1 then s - 1 else 0`, keeps the variant, and leaves an expired or inactive timer unchanged |
| `Enums.TicksRemaining` | crate/src/ch04_enums.rs:534-553 | after `k` ticks `remaining` has gone down by `k`, stopping at 0, and the variant is unchanged |
| `Enums.CountDownExpires` | crate/src/ch04_enums.rs:567-573 | a timer created with `n` reaches `CountDown(0)` after `n` ticks |
| `Enums.TickNeedsIndex` | crate/src/ch04_enums.rs:534-573 | one tick meets both the declared and the fixed spec; the declared `ensures self: Self` lets each tick of `test_tick` leave `CountDown(3)`, which `deactivate` rejects, and under the fixed spec every run of three ticks from `new(3)` ends with index 0 |
| `Enums.Timer.constructor` | crate/src/ch04_enums.rs:465-468 | a new timer is `CountDown(n)` with `remaining == n` |
| `Enums.Timer.Deactivate` | crate/src/ch04_enums.rs:470-473 | callable only when `remaining == 0`; the timer becomes `Inactive` |
| `Enums.Timer.Tick` | crate/src/ch04_enums.rs:534-553 | the new state is one tick of the old one, with `remaining` going to `if s > 1 then s - 1 else 0` |

The test methods `Refinements.TestAssert`, `Refinements.TestAddPoints`,
`Enums.TestUnreachableIf`, `Enums.TestUnreachableMatch`,
`Enums.TestDeactivate` and `Enums.TestTick` have no postcondition. Their
verification is the statement: every call in them meets its callee's
precondition. `TestDeactivate` also proves that `new(3)` has index 3, so
`deactivate` would be rejected on it. `TestTick` proves that three ticks of
`new(3)` permit `deactivate`.

## Left out

- The refinement-type checker, its environment, constraint store and solver are not in this repository (Flux is an external tool), so they are not modelled.
- Machine-integer overflow (`abs(i32::MIN)`, `12 + n`, `s + k` on `usize`, and `res * i` in `factorial`, which exceeds `i32` from `n = 13` since 13! = 6227020800): the tutorial leaves overflow unchecked (crate/src/ch04_enums.rs:240-242), so every integer is mathematical.
- `unreachable` (crate/src/ch04_enums.rs:167-171) is not a member of its own: its precondition is `false`, and each call is the assertion `assert false`.
- `panic!`, `unreachable!()` and the `vec!` allocation in `test_range` are runtime plumbing. A panic is a dead branch (`assert false`). `test_range` is its two literals (`RangeLiteralsDecided`).
- `examples` (crate/src/ch01_refinements.rs:72-76) only binds three literals and has no spec.
- The second `assert` of chapter 3 (crate/src/ch03_structs.rs:14-19) is the same as chapter 1's. In pure tests it is Dafny's `assert`.
- Dafny shows the body of a function to its callers, while Flux shows a caller only the callee's signature. So `TestNew`, `TestRangeNew`, `Union`, `TestUnion`, `TestSafeDivide` and `TestNewUnwrap` would verify even under the declared, index-free specs of their callees. That these tests need the fixed specs is stated by the `...NeedsIndex`, `UnionNeedsMinMaxSpecs` and `NewPositiveSpecAsWrittenTooWeak` lemmas, which quantify over the results each signature admits. `Timer.Tick` is a method, so `TestTick` depends on its contract alone, as in Flux.
- `Timer::new` returns a value in Rust. Here it is the class constructor, since the timer is then updated in place.
- crate/src/ch06_consts.rs is entirely inside a comment and uses floating point; crate/src/main.rs only declares modules and solver qualifiers. Neither is modelled.

## Findings

| source | as written | input that shows it | evidently intended | confidence | as-written member | corrected member |
|---|---|---|---|---|---|---|
| crate/src/ch03_structs.rs:399 | the free `union` takes its end as `max(r2.end, r2.end)`, which is just `r2.end` | `r1 = [10, 30]`, `r2 = [15, 25]` gives `[10, 25]`, which does not contain `r1` | `max(r1.end, r2.end)`, as in the `union` method at crate/src/ch03_structs.rs:509 | medium; not executed | `Structs.Union`, `Structs.UnionDropsFirstEnd` | `Structs.Range.Union`, `Structs.UnionIsLeastCover` |
