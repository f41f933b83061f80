/** Chapter 3: refining user-defined structs.

    A `refined_by` index becomes a function of the value (for `Range` the
    indices carry the fields' own names, so the fields serve as indices), and
    an `invariant` becomes the predicate `Invariant()`. Where Flux gives a
    function the return type `Positivei32` or `Range`, every value it returns
    must satisfy the invariant, so the model states `ensures r.Invariant()`;
    where a parameter has such a type, the invariant is a precondition.
    A call `assert(b)` in a test is Dafny's `assert b`: both demand a proof of `b`. */
module Structs {
  import opened Options

  // ---------------------------------------------------------------------------
  // Refinement functions (defs!) and their executable counterparts

  /** The logic-level `min` of the `defs!` block, over mathematical integers:
      one of its arguments, and below both. */
  ghost function MinLogic(x: int, y: int): (r: int)
    ensures r <= x && r <= y
    ensures r == x || r == y
  {
    if x < y then x else y
  }

  /** The logic-level `max` of the `defs!` block: one of its arguments, and above both. */
  ghost function MaxLogic(x: int, y: int): (r: int)
    ensures x <= r && y <= r
    ensures r == x || r == y
  {
    if x < y then y else x
  }

  /** The executable `min`, with the spec `fn(x:i32, y:i32) -> i32[min(x, y)]`
      that the exercise asks for: it agrees with the logic-level `min`. */
  function Min(x: int, y: int): (r: int)
    ensures r == MinLogic(x, y)
  {
    if x < y then x else y
  }

  /** The executable `max`, with the spec `fn(x:i32, y:i32) -> i32[max(x, y)]`. */
  function Max(x: int, y: int): (r: int)
    ensures r == MaxLogic(x, y)
  {
    if x < y then y else x
  }

  // ---------------------------------------------------------------------------
  // Positivei32: refined_by(n: int), invariant(n > 0), field val: i32[n]

  datatype Positivei32 = Positivei32(val: int) {

    /** The index `n`; the field annotation `i32[n]` makes it the value of `val`. */
    function N(): int
    {
      val
    }

    /** The declared invariant `n > 0`. */
    predicate Invariant()
    {
      N() > 0
    }

    /** `Positivei32::new` as written: no spec, so nothing keeps the argument
        positive and the literal it builds can break the invariant. */
    static function NewAsWritten(val: int): (p: Positivei32)
      ensures p.Invariant() <==> val > 0
    {
      Positivei32(val)
    }

    /** `Positivei32::new` with the fixed spec `fn(val: i32{val > 0}) -> Self[val]`:
        the same body, now establishing the invariant and tracking the value. */
    static function New(val: int): (p: Positivei32)
      requires val > 0
      ensures p.Invariant()
      ensures p.N() == val
    {
      NewAsWritten(val)
    }

    /** `Positivei32::new_opt` as written: it returns `Some` for every input,
        so its payload satisfies the invariant only when `val > 0`. */
    static function NewOpt(val: int): (r: Option<Positivei32>)
      ensures r.Valid() && r.value.N() == val
      ensures r.value.Invariant() <==> val > 0
    {
      Some(Positivei32(val))
    }

    /** `decr`: `fn(&Self[@p]) -> Self[max(1, p.n - 1)]`; the result is again positive. */
    function Decr(): (q: Positivei32)
      requires Invariant()
      ensures q.Invariant()
      ensures q.N() == MaxLogic(1, N() - 1)
    {
      var val := if val > 1 then val - 1 else val;
      Positivei32(val)
    }
  }

  /** `mk_positive_1`: `fn() -> Positivei32`, the literal `{val: 1}` is legal. */
  function MkPositive1(): (p: Positivei32)
    ensures p.Invariant()
  {
    Positivei32(1)
  }

  /** `mk_positive_0`, declared `fn() -> Positivei32` but building `{val: 0}`:
      its index is `0`, which violates `n > 0`. */
  function MkPositive0(): (p: Positivei32)
    ensures p.N() == 0
    ensures !p.Invariant()
  {
    Positivei32(0)
  }

  // Flux checks a caller against the callee's signature alone. The predicates
  // below state what a signature lets a caller assume about the result.

  /** The spec-less `new` is given the type `fn(i32) -> Positivei32`: its result
      satisfies the invariant, and nothing more is known of it. */
  predicate NewSpecAsWritten(val: int, p: Positivei32)
  {
    p.Invariant()
  }

  /** The fixed spec `fn(val: i32{val > 0}) -> Self[val]`, for a positive `val`. */
  predicate NewSpec(val: int, p: Positivei32)
  {
    p.Invariant() && p.N() == val
  }

  /** Without a precondition the body of `new` cannot meet its signature: for
      `0` it breaks the invariant. With the precondition it meets the fixed spec. */
  lemma NewAsWrittenBreaksInvariant()
    ensures exists val :: !NewSpecAsWritten(val, Positivei32.NewAsWritten(val))
    ensures forall val :: val > 0 ==> NewSpec(val, Positivei32.NewAsWritten(val))
  {
    assert !NewSpecAsWritten(0, Positivei32.NewAsWritten(0));
  }

  /** `test_new` needs the index of the fixed spec: the signature as written
      admits `{val: 1}` for `new(99)`, whose `val` is not `99`; every result the
      fixed spec admits has `val == 99`. */
  lemma TestNewNeedsIndex()
    ensures NewSpecAsWritten(99, Positivei32(1)) && Positivei32(1).val != 99
    ensures forall p :: NewSpec(99, p) ==> p.val == 99
  {
  }

  /** `new_opt` as written hands out an invalid payload for `0`. The corrected
      code, returning `None` unless `val > 0`, is chapter 4's `Positivei32::new`
      (`Enums.NewPositive`). */
  lemma NewOptBreaksInvariant()
    ensures Positivei32.NewOpt(0).Valid()
    ensures !Positivei32.NewOpt(0).Unwrap().Invariant()
  {
  }

  /** `mk_positive_10`: `fn() -> Positivei32[{n: 10}]`. */
  function MkPositive10(): (p: Positivei32)
    ensures p.Invariant()
    ensures p.N() == 10
  {
    Positivei32(10)
  }

  /** `test_ten`: `fn() -> i32[10]`; reading `val` recovers the tracked index. */
  function TestTen(): (res: int)
    ensures res == 10
  {
    var p := MkPositive10();
    var res := p.val;
    res
  }

  /** `test_new`: `fn() -> i32[99]`, calling the fixed `new`. Dafny shows the
      body of `new` to this caller; `TestNewNeedsIndex` states why Flux, which
      shows only the signature, needs the fixed spec. */
  function TestNew(): (res: int)
    ensures res == 99
  {
    var p := Positivei32.New(99);
    var res := p.val;
    res
  }

  /** `test_decr`: the index goes `2 -> 1 -> 1`. The last `p` is returned so
      that the final value is stated. */
  function TestDecr(): (p: Positivei32)
    ensures p.Invariant()
    ensures p.val == 1
  {
    var p := Positivei32(2);
    assert p.val == 2;
    var p := p.Decr();
    assert p.val == 1;
    var p := p.Decr();
    assert p.val == 1;
    p
  }

  // ---------------------------------------------------------------------------
  // Range: refined_by(start: int, end: int), invariant(start <= end)

  datatype Range = Range(start: int, end: int) {

    /** The declared invariant `start <= end`. */
    predicate Invariant()
    {
      start <= end
    }

    /** This range lies inside `outer`. */
    predicate Within(outer: Range)
    {
      outer.start <= start && end <= outer.end
    }

    /** `Range::new` as written: no spec, so the invariant holds only when the
        arguments happen to be ordered. */
    static function NewAsWritten(start: int, end: int): (r: Range)
      ensures r.Invariant() <==> start <= end
    {
      Range(start, end)
    }

    /** `Range::new` with the fixed spec
        `fn(start: i32, end: i32{start <= end}) -> Self[start, end]`. */
    static function New(start: int, end: int): (r: Range)
      requires start <= end
      ensures r.Invariant()
      ensures r.start == start && r.end == end
    {
      NewAsWritten(start, end)
    }

    /** The `union` method, with the spec the exercise asks for: the result
        starts at the smaller start and ends at the larger end. */
    function Union(other: Range): (r: Range)
      requires Invariant() && other.Invariant()
      ensures r.Invariant()
      ensures r.start == MinLogic(start, other.start)
      ensures r.end == MaxLogic(end, other.end)
    {
      var start := Min(start, other.start);
      var end := Max(end, other.end);
      Range(start, end)
    }
  }

  /** `test_range`: `{0, 10}` satisfies the invariant, `{15, 5}` does not. */
  lemma RangeLiteralsDecided()
    ensures Range(0, 10).Invariant()
    ensures !Range(15, 5).Invariant()
  {
  }

  /** The spec-less `Range::new` is given the type `fn(i32, i32) -> Range`:
      its result is a legal range, and nothing more is known of it. */
  predicate RangeNewSpecAsWritten(start: int, end: int, r: Range)
  {
    r.Invariant()
  }

  /** The fixed spec `fn(start: i32, end: i32{start <= end}) -> Self[start, end]`. */
  predicate RangeNewSpec(start: int, end: int, r: Range)
  {
    r.Invariant() && r.start == start && r.end == end
  }

  /** Without a precondition the body of `Range::new` cannot meet its
      signature: for `(15, 5)` it breaks the invariant. With the precondition it
      meets the fixed spec. */
  lemma RangeNewAsWrittenBreaksInvariant()
    ensures exists s, e :: !RangeNewSpecAsWritten(s, e, Range.NewAsWritten(s, e))
    ensures forall s, e :: s <= e ==> RangeNewSpec(s, e, Range.NewAsWritten(s, e))
  {
    assert !RangeNewSpecAsWritten(15, 5, Range.NewAsWritten(15, 5));
  }

  /** `test_range_new` needs the indices of the fixed spec: the signature as
      written admits `{0, 0}` for `new(0, 10)`; every result the fixed spec
      admits is `{0, 10}`. */
  lemma TestRangeNewNeedsIndex()
    ensures RangeNewSpecAsWritten(0, 10, Range(0, 0)) && Range(0, 0).end != 10
    ensures forall r :: RangeNewSpec(0, 10, r) ==> r.start == 0 && r.end == 10
  {
  }

  /** `test_range_new`: `fn() -> Range[{start: 0, end: 10}]`, calling the fixed
      `new` (see `TestRangeNewNeedsIndex` for why the fixed spec is needed). */
  function TestRangeNew(): (rng: Range)
    ensures rng.Invariant()
    ensures rng.start == 0 && rng.end == 10
  {
    var rng := Range.New(0, 10);
    assert rng.start == 0;
    assert rng.end == 10;
    rng
  }

  /** The free function `union` as written: its end is `max(r2.end, r2.end)`,
      that is `r2.end`. The result is still a legal range, because
      `min(r1.start, r2.start) <= r2.start <= r2.end`. */
  function Union(r1: Range, r2: Range): (r: Range)
    requires r1.Invariant() && r2.Invariant()
    ensures r.Invariant()
    ensures r.start == MinLogic(r1.start, r2.start)
    ensures r.end == r2.end
  {
    var start := Min(r1.start, r2.start);
    var end := Max(r2.end, r2.end);
    Range(start, end)
  }

  /** The spec-less `min` and `max` are given the type `fn(i32, i32) -> i32`:
      nothing is known of their result. */
  predicate MinMaxSpecAsWritten(x: int, y: int, r: int)
  {
    true
  }

  /** Checked against the signatures of `min` and `max`, the free `union` needs
      their indices: as written they admit `1` and `0` for two copies of
      `[0, 0]`, and `Range {start: 1, end: 0}` breaks the invariant; with the
      fixed specs `i32[min(x, y)]` and `i32[max(x, y)]` every admitted pair of
      results, `max(r2.end, r2.end)` included, is a legal range. */
  lemma UnionNeedsMinMaxSpecs(r1: Range, r2: Range, start: int, end: int)
    requires r1.Invariant() && r2.Invariant()
    ensures MinMaxSpecAsWritten(0, 0, 1) && MinMaxSpecAsWritten(0, 0, 0)
    ensures !Range(1, 0).Invariant()
    ensures start == MinLogic(r1.start, r2.start) && end == MaxLogic(r2.end, r2.end) ==>
              Range(start, end).Invariant()
  {
  }

  /** The free `union` loses the first range's end: `[10, 30]` and `[15, 25]`
      give `[10, 25]`, which does not contain `[10, 30]`. */
  lemma UnionDropsFirstEnd()
    ensures Union(Range(10, 30), Range(15, 25)) == Range(10, 25)
    ensures !Range(10, 30).Within(Union(Range(10, 30), Range(15, 25)))
  {
  }

  /** The `union` method computes the least range containing both arguments. */
  lemma UnionIsLeastCover(r1: Range, r2: Range, c: Range)
    requires r1.Invariant() && r2.Invariant()
    ensures r1.Within(r1.Union(r2)) && r2.Within(r1.Union(r2))
    ensures r1.Within(c) && r2.Within(c) ==> r1.Union(r2).Within(c)
  {
  }

  /** The declared spec of the `union` method, `fn(&Self[@r1], &Self[@r2]) -> Self`:
      a legal range, and nothing more is known of it. */
  predicate UnionSpecAsWritten(r1: Range, r2: Range, r: Range)
  {
    r.Invariant()
  }

  /** The spec the exercise asks for: from the smaller start to the larger end. */
  ghost predicate UnionSpec(r1: Range, r2: Range, r: Range)
  {
    r.Invariant() && r.start == MinLogic(r1.start, r2.start) && r.end == MaxLogic(r1.end, r2.end)
  }

  /** `test_union` needs the fixed spec: the declared one admits `[0, 0]` for
      `[10, 20]` united with `[15, 25]`, on which `assert(r3.start == 10)` fails;
      every result the fixed spec admits is `[10, 25]`. */
  lemma TestUnionNeedsIndex()
    ensures UnionSpecAsWritten(Range(10, 20), Range(15, 25), Range(0, 0)) && Range(0, 0).start != 10
    ensures forall r :: UnionSpec(Range(10, 20), Range(15, 25), r) ==> r.start == 10 && r.end == 25
  {
  }

  /** `test_union`: `[10, 20]` and `[15, 25]` give `[10, 25]`. */
  function TestUnion(): (r3: Range)
    ensures r3.Invariant()
    ensures r3.start == 10 && r3.end == 25
  {
    var r1 := Range(10, 20);
    var r2 := Range(15, 25);
    var r3 := r1.Union(r2);
    assert r3.start == 10;
    assert r3.end == 25;
    r3
  }
}
