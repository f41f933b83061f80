/** The refined `Option` of chapter 4: an enum indexed by a `bool` named
    `valid`, which the variant annotations fix to `true` for `Some` and to
    `false` for `None`. Chapter 3's smart constructor returns the standard
    `Option`, which has the same two variants; both chapters use this one. */
module Options {

  datatype Option<T> = Some(value: T) | None {

    /** The index `valid`: `Some(_)` has index `true`, `None` has index `false`. */
    predicate Valid()
    {
      Some?
    }

    /** `is_some`: `fn(&Self[@valid]) -> bool[valid]`. The match tells the
        checker that `valid` is `true` in the first arm and `false` in the second. */
    function IsSome(): (b: bool)
      ensures b == Valid()
    {
      match this
      case Some(_) => true
      case None => false
    }

    /** `unwrap`: `fn(Self[true]) -> T`. Under the precondition the `None` arm,
        which calls `unreachable()`, is dead, so it is left out of the match. */
    function Unwrap(): (v: T)
      requires Valid()
      ensures this == Some(v)
    {
      match this
      case Some(v) => v
    }
  }

  /** `test_some`: `fn() -> Option<i32>[true]`. */
  function TestSome(): (o: Option<int>)
    ensures o.Valid()
  {
    Some(12)
  }

  /** `test_none`: `fn() -> Option<i32>[false]`. */
  function TestNone(): (o: Option<int>)
    ensures !o.Valid()
  {
    None
  }
}
