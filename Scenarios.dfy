/** The behaviour the repository's unit tests exercise, stated on concrete
    values. `Exn` stands for the two exception classes the tests use. */
module Scenarios {
  import opened Wrappers
  import opened Either
  import opened Maybe

  /** `System.Exception` and `System.ArgumentException(message, inner)`. */
  datatype Exn = Exception | ArgumentException(message: string, inner: Exn)

  /** The tests' marker values for which handler `Match` ran. */
  datatype Side = LeftSide | RightSide

  /** A Left instance runs the left handler. */
  lemma MatchWhenLeftRunsLeftFunc()
    ensures Either<Exn, bool>.Left(Exception).Match(NonNull((l: Exn) => LeftSide), NonNull((r: bool) => RightSide))
            == Ok(LeftSide)
  {
  }

  /** A Right instance runs the right handler. */
  lemma MatchWhenRightRunsRightFunc()
    ensures Either<Exn, bool>.Right(true).Match(NonNull((l: Exn) => LeftSide), NonNull((r: bool) => RightSide))
            == Ok(RightSide)
  {
  }

  /** On a Right holding `true`, `DoRight` then `DoLeft` invokes only the
      right action, once, with `true`. */
  lemma WhenRightDoRightDontDoLeft(ra: Action<bool>, la: Action<Exn>)
    ensures Perform(Either<Exn, bool>.Right(true), [DoRightStep(NonNull(ra)), DoLeftStep(NonNull(la))])
            == Trace([RightActionRan(true)], Null)
  {
    var steps := [DoRightStep(NonNull(ra)), DoLeftStep(NonNull(la))];
    assert steps[1..][1..] == [];
    assert Perform(Either<Exn, bool>.Right(true), steps[1..]) == Trace([], Null);
    assert ResultEvents(Either<Exn, bool>.Right(true).DoRight(NonNull(ra)), (r: bool) => Event<Exn, bool>.RightActionRan(r)).events
           == [RightActionRan(true)];
  }

  /** On a Left holding an exception, `DoLeft` then `DoRight` invokes only
      the left action, once, with that exception. */
  lemma WhenLeftDoLeftDontDoRight(la: Action<Exn>, ra: Action<bool>)
    ensures Perform(Either<Exn, bool>.Left(Exception), [DoLeftStep(NonNull(la)), DoRightStep(NonNull(ra))])
            == Trace([LeftActionRan(Exception)], Null)
  {
    var steps := [DoLeftStep(NonNull(la)), DoRightStep(NonNull(ra))];
    assert steps[1..][1..] == [];
    assert Perform(Either<Exn, bool>.Left(Exception), steps[1..]) == Trace([], Null);
    assert ResultEvents(Either<Exn, bool>.Left(Exception).DoLeft(NonNull(la)), (l: Exn) => Event<Exn, bool>.LeftActionRan(l)).events
           == [LeftActionRan(Exception)];
  }

  /** Wrapping an exception, as `Bind`'s lambda does through the implicit
      conversion. */
  function WrapInArgumentException(e: Exn): Maybe<Exn>
  {
    Maybe<Exn>.New(NonNull(ArgumentException("", e))).value
  }

  /** Binding a present exception yields an `ArgumentException`. */
  lemma BindExceptionToAnotherException()
    ensures Maybe<Exn>.New(NonNull(Exception)).Ok?
    ensures Maybe<Exn>.New(NonNull(Exception)).value.Bind(WrapInArgumentException).value
            == NonNull(ArgumentException("", Exception))
  {
  }

  /** Binding `None()` yields an instance whose value is null. */
  lemma BindNoneToOtherType()
    ensures Maybe<Exn>.None().Bind(WrapInArgumentException).value == Null
  {
  }

  /** A constructed instance has a value and is not null. */
  lemma ConstructorHasValueIsNotNull()
    ensures Maybe<Exn>.New(NonNull(Exception)).Ok?
    ensures Maybe<Exn>.New(NonNull(Exception)).value.HasValue()
    ensures !Maybe<Exn>.New(NonNull(Exception)).value.IsNull()
  {
  }

  /** `None()` is null and has no value. */
  lemma NoneIsNullDoesNotHaveValue()
    ensures !Maybe<Exn>.None().HasValue() && Maybe<Exn>.None().IsNull()
  {
  }

  /** On `None()` the null action runs once and the value action never. */
  lemma WhenNullDoNullActionDontDoValueAction(onNull: Action<()>, onValue: Action<Exn>)
    ensures Maybe<Exn>.None().WhenNull(NonNull(onNull)) == Ok([()])
    ensures Maybe<Exn>.None().WhenHasValue(NonNull(onValue)) == Ok([])
  {
  }
}
