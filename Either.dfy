/** `Either<TL, TR>`: a value holding exactly one of a Left or a Right
    payload. The C# class keeps a `readonly` tag and two `readonly` fields
    set only by its two constructors; here the tag is the datatype
    constructor, so "never both, never neither" and immutability hold by
    construction. */
module Either {
  import opened Wrappers

  datatype Either<L, R> = Left(left: L) | Right(right: R) {

    /** Exhaustive dispatch. Both handlers are checked for null, `leftFunc`
        first, before either is considered; then exactly the handler of
        the held variant is applied to the held payload. */
    function Match<T>(leftFunc: Nullable<L -> T>, rightFunc: Nullable<R -> T>): (r: Result<T>)
      ensures leftFunc.Null? ==> r == Err(ArgumentNull("leftFunc"))
      ensures leftFunc.NonNull? && rightFunc.Null? ==> r == Err(ArgumentNull("rightFunc"))
      ensures r.Ok? <==> leftFunc.NonNull? && rightFunc.NonNull?
      ensures r.Ok? && Left? ==> r.value == leftFunc.obj(left)
      ensures r.Ok? && Right? ==> r.value == rightFunc.obj(right)
    {
      if leftFunc.Null? then Err(ArgumentNull("leftFunc"))
      else if rightFunc.Null? then Err(ArgumentNull("rightFunc"))
      else if Left? then Ok(leftFunc.obj(left))
      else Ok(rightFunc.obj(right))
    }

    /** Runs `rightAction` on the Right payload. The result lists the
        arguments the action was invoked with; a null action is refused
        whatever the variant. */
    function DoRight(rightAction: Nullable<Action<R>>): (r: Result<seq<R>>)
      ensures r.Err? <==> rightAction.Null?
      ensures r.Err? ==> r.error == ArgumentNull("rightAction")
      ensures r.Ok? && Right? ==> r.value == [right]
      ensures r.Ok? && Left? ==> r.value == []
    {
      if rightAction.Null? then Err(ArgumentNull("rightAction"))
      else if !Left? then Ok([right])
      else Ok([])
    }

    /** Runs `leftAction` on the Left payload; the mirror of `DoRight`. */
    function DoLeft(leftAction: Nullable<Action<L>>): (r: Result<seq<L>>)
      ensures r.Err? <==> leftAction.Null?
      ensures r.Err? ==> r.error == ArgumentNull("leftAction")
      ensures r.Ok? && Left? ==> r.value == [left]
      ensures r.Ok? && Right? ==> r.value == []
    {
      if leftAction.Null? then Err(ArgumentNull("leftAction"))
      else if Left? then Ok([left])
      else Ok([])
    }

    /** The Left payload, or `dflt` (the model of `default(TL)`) on a Right;
        computed through `Match` as the source does. */
    function LeftOrDefault(dflt: L): (v: L)
      ensures Left? ==> v == left
      ensures Right? ==> v == dflt
    {
      Match(NonNull((l: L) => l), NonNull((_: R) => dflt)).value
    }

    /** The Right payload, or `dflt` (the model of `default(TR)`) on a Left. */
    function RightOrDefault(dflt: R): (v: R)
      ensures Right? ==> v == right
      ensures Left? ==> v == dflt
    {
      Match(NonNull((_: L) => dflt), NonNull((r: R) => r)).value
    }
  }

  /** Matching with the two constructors as handlers rebuilds the value:
      `Match` sees the whole of the instance and loses nothing. */
  lemma MatchWithConstructorsIsIdentity<L, R>(e: Either<L, R>)
    ensures e.Match(NonNull((l: L) => Left(l)), NonNull((r: R) => Right(r))) == Ok(e)
  {
  }

  /** `Match` never depends on the handler of the other variant: on a Left
      any two right handlers give the same result, and on a Right any two
      left handlers do. */
  lemma MatchIgnoresOtherHandler<L, R, T>(e: Either<L, R>, lf1: L -> T, lf2: L -> T, rf1: R -> T, rf2: R -> T)
    ensures e.Left? ==> e.Match(NonNull(lf1), NonNull(rf1)) == e.Match(NonNull(lf1), NonNull(rf2))
    ensures e.Right? ==> e.Match(NonNull(lf1), NonNull(rf1)) == e.Match(NonNull(lf2), NonNull(rf1))
  {
  }

  /** With non-null actions, exactly one of `DoLeft` and `DoRight` invokes
      its action, exactly once. */
  lemma ExactlyOneDoFires<L, R>(e: Either<L, R>, la: Action<L>, ra: Action<R>)
    ensures |e.DoLeft(NonNull(la)).value| + |e.DoRight(NonNull(ra)).value| == 1
  {
  }

  /** The payload is recovered from the `OrDefault` accessor of its side,
      whatever default is supplied. */
  lemma OrDefaultRecovers<L, R>(e: Either<L, R>, dl: L, dr: R)
    ensures e.Left? ==> e == Left(e.LeftOrDefault(dl))
    ensures e.Right? ==> e == Right(e.RightOrDefault(dr))
  {
  }

  // ---------------------------------------------------------------------
  // Several calls on one instance. The C# fields are readonly, so every
  // call made on an instance sees the tag and payload its constructor set.

  /** One `DoLeft` or `DoRight` call made by a client on an instance. */
  datatype Step<!L, !R> =
    | DoLeftStep(leftAction: Nullable<Action<L>>)
    | DoRightStep(rightAction: Nullable<Action<R>>)

  /** An invocation of a client action, with the argument it received. */
  datatype Event<L, R> = LeftActionRan(l: L) | RightActionRan(r: R)

  /** What a run of steps did: every invocation in order, and the exception
      that stopped it, if any (invocations made before it still happened). */
  datatype Trace<L, R> = Trace(events: seq<Event<L, R>>, failure: Nullable<Error>)

  /** Performs `steps` one after another on the same instance `e`; an
      exception abandons the remaining steps. */
  function Perform<L, R>(e: Either<L, R>, steps: seq<Step<L, R>>): Trace<L, R>
    decreases |steps|
  {
    if steps == [] then Trace([], Null)
    else
      var here := match steps[0]
        case DoLeftStep(a) => ResultEvents(e.DoLeft(a), (l: L) => LeftActionRan(l))
        case DoRightStep(a) => ResultEvents(e.DoRight(a), (r: R) => RightActionRan(r));
      if here.failure.NonNull? then here
      else
        var rest := Perform(e, steps[1..]);
        Trace(here.events + rest.events, rest.failure)
  }

  /** The trace of a single call: its invocations, or the exception it threw. */
  function ResultEvents<X, L, R>(res: Result<seq<X>>, ev: X -> Event<L, R>): Trace<L, R>
  {
    match res
    case Ok(xs) => Trace(seq(|xs|, i requires 0 <= i < |xs| => ev(xs[i])), Null)
    case Err(err) => Trace([], NonNull(err))
  }

  /** The number of `DoLeft` calls among `steps`. */
  function CountDoLeft<L, R>(steps: seq<Step<L, R>>): nat
  {
    if steps == [] then 0 else (if steps[0].DoLeftStep? then 1 else 0) + CountDoLeft(steps[1..])
  }

  /** The number of `DoRight` calls among `steps`. */
  function CountDoRight<L, R>(steps: seq<Step<L, R>>): nat
  {
    if steps == [] then 0 else (if steps[0].DoRightStep? then 1 else 0) + CountDoRight(steps[1..])
  }

  /** Every call made on the same instance receives the payload its
      constructor stored: on a Left built from `l`, every invocation in any
      run is a left action receiving `l`, and a run
      that completes has invoked one action per `DoLeft` call and no right
      action at all. */
  lemma {:induction false} PerformOnLeft<L, R>(l: L, steps: seq<Step<L, R>>)
    ensures forall i :: 0 <= i < |Perform(Left(l), steps).events| ==>
              Perform(Left(l), steps).events[i] == LeftActionRan(l)
    ensures Perform(Left(l), steps).failure.Null? ==>
              |Perform(Left(l), steps).events| == CountDoLeft(steps)
    decreases |steps|
  {
    if steps != [] {
      PerformOnLeft(l, steps[1..]);
    }
  }

  /** The mirror of `PerformOnLeft` for a Right built from `r`. */
  lemma {:induction false} PerformOnRight<L, R>(r: R, steps: seq<Step<L, R>>)
    ensures forall i :: 0 <= i < |Perform(Right(r), steps).events| ==>
              Perform(Right(r), steps).events[i] == RightActionRan(r)
    ensures Perform(Right(r), steps).failure.Null? ==>
              |Perform(Right(r), steps).events| == CountDoRight(steps)
    decreases |steps|
  {
    if steps != [] {
      PerformOnRight(r, steps[1..]);
    }
  }

  /** A run fails exactly when one of its calls passes a null action, even
      a call whose action would not have been invoked. */
  lemma {:induction false} PerformFailsIffNullAction<L, R>(e: Either<L, R>, steps: seq<Step<L, R>>)
    ensures Perform(e, steps).failure.NonNull? <==>
              exists i :: 0 <= i < |steps| && StepActionIsNull(steps[i])
    decreases |steps|
  {
    if steps != [] {
      PerformFailsIffNullAction(e, steps[1..]);
      if !StepActionIsNull(steps[0]) {
        forall i | 1 <= i < |steps| && StepActionIsNull(steps[i])
          ensures StepActionIsNull(steps[1..][i - 1])
        {
        }
      }
    }
  }

  /** A run stops at its first call with a null action: it fails with that
      call's `ArgumentNull`, and its invocations are exactly those of the
      calls before it, which all completed. */
  lemma {:induction false} PerformStopsAtFirstNullAction<L, R>(e: Either<L, R>, steps: seq<Step<L, R>>, k: nat)
    requires k < |steps| && StepActionIsNull(steps[k])
    requires forall i :: 0 <= i < k ==> !StepActionIsNull(steps[i])
    ensures Perform(e, steps).failure == NonNull(StepError(steps[k]))
    ensures Perform(e, steps[..k]).failure.Null?
    ensures Perform(e, steps).events == Perform(e, steps[..k]).events
    decreases k
  {
    if k > 0 {
      assert steps[..k][0] == steps[0] && steps[..k][1..] == steps[1..][..k - 1];
      PerformStopsAtFirstNullAction(e, steps[1..], k - 1);
    }
  }

  /** The exception a step with a null action throws. */
  function StepError<L, R>(s: Step<L, R>): Error
  {
    match s
    case DoLeftStep(_) => ArgumentNull("leftAction")
    case DoRightStep(_) => ArgumentNull("rightAction")
  }

  /** Whether the step passes a null action. */
  predicate StepActionIsNull<L, R>(s: Step<L, R>)
  {
    match s
    case DoLeftStep(a) => a.Null?
    case DoRightStep(a) => a.Null?
  }
}
