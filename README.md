# Functional.Monads in Dafny

A model of the two immutable generic containers of the `Felipeslongo.Functional.Monads`
C# library, with proofs of what each operation promises.

- `Either<TL, TR>` holds exactly one of a Left or a Right payload. `Match` dispatches to the
  handler of the held variant, `DoLeft` / `DoRight` run an action only in their variant, and
  `LeftOrDefault` / `RightOrDefault` read a payload through `Match`.
- `Maybe<T>` (for a class type `T`) holds a reference in which `null` means absent. Its public
  constructor refuses `null`, so `None()` is the only way to get an absent instance. `Bind` is the
  monadic chain, and `WhenNull` / `WhenHasValue` run an action in one state only.

How the C# is expressed:

- A C# reference that may be `null` is `Wrappers.Nullable<T>` (`Null` or `NonNull(obj)`). Callback
  parameters use it too, so the null guards can be stated.
- A thrown `ArgumentNullException` is the `Err(ArgumentNull(paramName))` outcome of
  `Wrappers.Result`. `paramName` is the string the source passes with `nameof`.
- An action callback (`Action<X>`) is the arrow `X -> ()`. `DoLeft`, `DoRight`, `WhenNull` and
  `WhenHasValue` return the list of arguments the action was invoked with. That list is how
  "invoked once, with this value" and "never invoked" are stated.
- `Either` is a datatype `Left(left) | Right(right)`. The C# `isLeft` tag is the constructor.
  The `readonly` fields are datatype fields. So "never both, never neither" and immutability hold
  by construction.
- `Either.Perform` runs a client's sequence of `DoLeft` / `DoRight` calls on one instance, the
  way the unit tests call both on the same object. It records every invocation, and the exception
  that stopped the sequence, if any. The lemmas about it show that every call made on the same
  instance receives the payload its constructor stored, and that a sequence stops at its first
  null action.
- `Maybe.BindAll` is a pipeline `m.Bind(f1).Bind(f2)...` whose steps all map `T` to `Maybe<T>`.
  Its lemmas show that absence propagates through any such pipeline.
- `Scenarios` restates the repository's unit tests on concrete values.

## Model

| member | source | states |
|---|---|---|
| `Either.Either.Match` | Functional.Monads/Either.cs:93-106 | A null `leftFunc` is refused first, then a null `rightFunc`; with both handlers present the result is the left handler on the Left payload or the right handler on the Right payload, and nothing else. |
| `Either.Either.DoRight` | Functional.Monads/Either.cs:49-60 | A null action is refused in both variants; otherwise the action is invoked exactly once with the Right payload on a Right, and not at all on a Left. |
| `Either.Either.DoLeft` | Functional.Monads/Either.cs:65-76 | A null action is refused in both variants; otherwise the action is invoked exactly once with the Left payload on a Left, and not at all on a Right. |
| `Either.Either.LeftOrDefault` | Functional.Monads/Either.cs:83 | Computed through `Match`: the Left payload on a Left, the supplied default on a Right. |
| `Either.Either.RightOrDefault` | Functional.Monads/Either.cs:112 | Computed through `Match`: the Right payload on a Right, the supplied default on a Left. |
| `Either.MatchWithConstructorsIsIdentity` | Functional.Monads/Either.cs:93-106 | Matching with the two constructors as handlers rebuilds the instance, so `Match` is exhaustive and loses nothing. |
| `Either.MatchIgnoresOtherHandler` | Functional.Monads/Either.cs:105 | On a Left the result of `Match` is the same for any two right handlers, and on a Right for any two left handlers. |
| `Either.ExactlyOneDoFires` | Functional.Monads/Either.cs:49-76 | With non-null actions, exactly one of `DoLeft` and `DoRight` invokes its action, and only once. |
| `Either.OrDefaultRecovers` | Functional.Monads/Either.cs:21-31 | The payload a constructor stored is returned by the accessor of its side, whatever default is supplied. |
| `Either.PerformOnLeft` | Functional.Monads/Either.cs:17-76 | On a Left built from `l`, every action invoked by any sequence of calls receives `l` and is a left action. A sequence that completes invokes one action per `DoLeft` call and no right action. |
| `Either.PerformOnRight` | Functional.Monads/Either.cs:17-76 | The mirror of `PerformOnLeft` for a Right built from `r`. |
| `Either.PerformFailsIffNullAction` | Functional.Monads/Either.cs:49-76 | A sequence of calls fails exactly when one of its calls passes a null action, including a call whose action would not have run. |
| `Either.PerformStopsAtFirstNullAction` | Functional.Monads/Either.cs:49-76 | A sequence fails with the `ArgumentNull` of its first call with a null action (`leftAction` or `rightAction`), and its invocations are exactly those of the calls before it, which all completed. |
| `Maybe.Maybe.IsNull` | Functional.Monads/Maybe.cs:17 | Holds exactly when the slot is null. |
| `Maybe.Maybe.HasValue` | Functional.Monads/Maybe.cs:16 | `HasValue` is the negation of `IsNull`, and holds exactly when the slot is non-null. |
| `Maybe.Maybe.New` | Functional.Monads/Maybe.cs:19-22 | Fails with `ArgumentNull("someValue")` exactly when the argument is null; otherwise the instance has a value, is not null, and holds the argument. |
| `Maybe.Maybe.None` | Functional.Monads/Maybe.cs:24-33 | The factory's instance has no value and is null. |
| `Maybe.Maybe.FromReference` | Functional.Monads/Maybe.cs:35 | The implicit conversion inherits the constructor's behaviour: it fails with `ArgumentNull("someValue")` exactly on null, and otherwise holds the argument. |
| `Maybe.Maybe.Bind` | Functional.Monads/Maybe.cs:28-31 | On a present instance the result is exactly what `func` returns for the value, absent results included. On an absent instance it is `None()`, and it does not depend on `func`. |
| `Maybe.Maybe.WhenNull` | Functional.Monads/Maybe.cs:37-44 | A null action is refused in both states; otherwise the action is invoked once when absent and never when present. |
| `Maybe.Maybe.WhenHasValue` | Functional.Monads/Maybe.cs:46-53 | A null action is refused in both states; otherwise the action is invoked once with the value when present and never when absent. |
| `Maybe.ConstructorOrNone` | Functional.Monads/Maybe.cs:15-33 | Every instance with a value is what the constructor builds from that value, and every null instance is `None()`. |
| `Maybe.ExactlyOneWhenFires` | Functional.Monads/Maybe.cs:37-53 | With non-null actions, exactly one of `WhenNull` and `WhenHasValue` invokes its action, and only once. |
| `Maybe.BindIgnoresFuncWhenAbsent` | Functional.Monads/Maybe.cs:30 | On an absent instance the result of `Bind` is the same for any two functions. |
| `Maybe.BindLeftIdentity` | Functional.Monads/Maybe.cs:19-31 | Binding `f` on an instance constructed from `v` gives exactly `f(v)`. |
| `Maybe.BindRightIdentity` | Functional.Monads/Maybe.cs:28-31 | Binding the constructor returns an instance with the same `Value` as the receiver. |
| `Maybe.BindAssociative` | Functional.Monads/Maybe.cs:28-31 | `m.Bind(f).Bind(g)` equals `m.Bind(x => f(x).Bind(g))`. |
| `Maybe.BindAllAbsent` | Functional.Monads/Maybe.cs:28-31 | A pipeline of binds whose steps all map `T` to `Maybe<T>`, started on `None()`, returns `None()` whatever its steps. |
| `Maybe.BindAllAppend` | Functional.Monads/Maybe.cs:28-31 | Running the pipeline `fs + gs` is the same as running `gs` on what `fs` returned. |
| `Maybe.BindAllPresentPrefixes` | Functional.Monads/Maybe.cs:28-31 | If a pipeline ends with a value, every prefix of it produced a value: after a step returns absence, no later step can recover. |
| `Scenarios.MatchWhenLeftRunsLeftFunc` | Functional.Monads.Tests/EitherTests.cs:15-20 | On a Left exception, `Match` returns the left handler's marker. |
| `Scenarios.MatchWhenRightRunsRightFunc` | Functional.Monads.Tests/EitherTests.cs:22-28 | On `Right(true)`, `Match` returns the right handler's marker. |
| `Scenarios.WhenRightDoRightDontDoLeft` | Functional.Monads.Tests/EitherTests.cs:31-36 | On `Right(true)`, calling `DoRight` then `DoLeft` invokes only the right action, once, with `true`. |
| `Scenarios.WhenLeftDoLeftDontDoRight` | Functional.Monads.Tests/EitherTests.cs:39-44 | On a Left exception, calling `DoLeft` then `DoRight` invokes only the left action, once, with that exception. |
| `Scenarios.BindExceptionToAnotherException` | Functional.Monads.Tests/MaybeTests.cs:11-17 | Binding a present exception to a wrapping function yields a present `ArgumentException`. |
| `Scenarios.BindNoneToOtherType` | Functional.Monads.Tests/MaybeTests.cs:20-26 | Binding `None()` yields an instance whose value is null. |
| `Scenarios.ConstructorHasValueIsNotNull` | Functional.Monads.Tests/MaybeTests.cs:29-35 | A constructed instance has a value and is not null. |
| `Scenarios.NoneIsNullDoesNotHaveValue` | Functional.Monads.Tests/MaybeTests.cs:39-45 | `None()` is null and has no value. |
| `Scenarios.WhenNullDoNullActionDontDoValueAction` | Functional.Monads.Tests/MaybeTests.cs:48-56 | On `None()`, the null action runs once and the value action never runs. |

## Left out

- Bind: the source does not guard `func` against null (Functional.Monads/Maybe.cs:28-31). The model takes `func` as a total function, so it does not capture the `NullReferenceException` a null `func` raises on a present instance. It also does not capture that a null `func` is ignored on an absent one.
- BindAll: its steps all map `T` to `Maybe<T>`, so it cannot express chains that change the element type at each `Bind<U>`, such as the Exception to ArgumentException chains of Functional.Monads.Tests/MaybeTests.cs:13-14 and 22-23. Such chains are covered one step at a time by `Bind`'s `ensures IsNull() ==> r == Maybe<U>.None()` and by `BindAssociative`.
- Bind: `func` may return a null `Maybe<U>` reference in C#. The model has no null `Maybe` and treats the result of `func` as an instance.
- `default(TL)` / `default(TR)`: `LeftOrDefault` and `RightOrDefault` take the default as an explicit `dflt` argument. The CLR's `null` or zero default is not modelled.
- The implicit conversions of `Either` (Functional.Monads/Either.cs:37, 43) are the datatype constructors `Left` and `Right`, which are also the C# constructors. C# overload resolution, and its ambiguity when `TL` and `TR` are the same type, is a compile-time matter and is not modelled.
- The `Either` payloads are not checked for null, as in the source. A payload of type `Nullable<X>` may be `Null`.
- Equality: the C# classes compare by reference; the datatypes compare by tag and payload, so `==` in the lemmas means equal contents, and `None()` stands for any new absent instance.
- Match: its `Func` handlers are modelled as pure functions and `Match` records no calls, so "never calls the other handler" appears only as "the result does not depend on it" (`MatchIgnoresOtherHandler`). A handler with a side effect is not covered.
- Bind: `func` is modelled as a pure function, so "never calls `func` on an absent instance" appears only as "the result is `None()` whatever `func` is" (`BindIgnoresFuncWhenAbsent`). A `func` with a side effect is not covered.
- Callbacks of `DoLeft`, `DoRight`, `WhenNull` and `WhenHasValue`: only whether the action is invoked, and with which argument, is modelled. Their own side effects, and exceptions they throw, are not.
- The `private set` of `Maybe.Value` is not modelled. The source assigns `Value` only in the constructor, and the datatype field cannot be reassigned.
- The xUnit test harness is not modelled. Its assertions are restated in `Scenarios`.
