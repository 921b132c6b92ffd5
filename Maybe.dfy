/** `Maybe<T>` for a C# class type `T`: a single value slot in which
    `null` means absent. The public constructor refuses `null`, so the
    `None()` factory is the only way to obtain an absent instance. */
module Maybe {
  import opened Wrappers

  datatype Maybe<T> = Maybe(value: Nullable<T>) {

    /** `IsNull`: the slot holds `null`. */
    predicate IsNull()
      ensures IsNull() <==> value == Null
    {
      value.Null?
    }

    /** `HasValue`, defined as the negation of `IsNull`. */
    predicate HasValue()
      ensures HasValue() <==> value.NonNull?
    {
      !IsNull()
    }

    /** The public constructor: wraps a non-null reference and throws
        `ArgumentNullException` on `null`. */
    static function New(someValue: Nullable<T>): (r: Result<Maybe<T>>)
      ensures r.Err? <==> someValue.Null?
      ensures r.Err? ==> r.error == ArgumentNull("someValue")
      ensures r.Ok? ==> r.value.HasValue() && !r.value.IsNull() && r.value.value == someValue
    {
      if someValue.Null? then Err(ArgumentNull("someValue")) else Ok(Maybe(someValue))
    }

    /** The factory for an absent instance; the private parameterless
        constructor leaves the slot at `null`. */
    static function None(): (m: Maybe<T>)
      ensures !m.HasValue() && m.IsNull()
    {
      Maybe(Null)
    }

    /** The implicit conversion from a bare reference: the public
        constructor under another name, so `null` is refused here too. */
    static function FromReference(arg: Nullable<T>): (r: Result<Maybe<T>>)
      ensures r.Err? <==> arg.Null?
      ensures r.Err? ==> r.error == ArgumentNull("someValue")
      ensures r.Ok? ==> r.value.value == arg
    {
      New(arg)
    }

    /** The monadic chain: on a present value, exactly what `func` returns
        (absent included); on an absent one, `None()` without applying
        `func`, so the result does not depend on `func` at all. */
    function Bind<U>(func: T -> Maybe<U>): (r: Maybe<U>)
      ensures HasValue() ==> r == func(value.obj)
      ensures IsNull() ==> r == Maybe<U>.None()
    {
      if value.NonNull? then func(value.obj) else Maybe<U>.None()
    }

    /** Runs `action` when absent. The result lists the invocations (an
        `Action` takes no argument); a null action is refused whatever the
        state. */
    function WhenNull(action: Nullable<Action<()>>): (r: Result<seq<()>>)
      ensures r.Err? <==> action.Null?
      ensures r.Err? ==> r.error == ArgumentNull("action")
      ensures r.Ok? ==> |r.value| == (if IsNull() then 1 else 0)
    {
      if action.Null? then Err(ArgumentNull("action"))
      else if IsNull() then Ok([()])
      else Ok([])
    }

    /** Runs `action` on the value when present; same null guard. */
    function WhenHasValue(action: Nullable<Action<T>>): (r: Result<seq<T>>)
      ensures r.Err? <==> action.Null?
      ensures r.Err? ==> r.error == ArgumentNull("action")
      ensures r.Ok? && HasValue() ==> r.value == [value.obj]
      ensures r.Ok? && IsNull() ==> r.value == []
    {
      if action.Null? then Err(ArgumentNull("action"))
      else if HasValue() then Ok([value.obj])
      else Ok([])
    }
  }

  /** Every instance is exactly one of: what the constructor built from its
      own reference, or `None()`. Absence therefore only ever comes from
      `None()`. */
  lemma ConstructorOrNone<T>(m: Maybe<T>)
    ensures m.HasValue() <==> Maybe<T>.New(m.value) == Ok(m)
    ensures m.IsNull() <==> m == Maybe<T>.None()
  {
  }

  /** For a non-null action pair, exactly one of `WhenNull` and
      `WhenHasValue` invokes its action, once. */
  lemma ExactlyOneWhenFires<T>(m: Maybe<T>, onNull: Action<()>, onValue: Action<T>)
    ensures |m.WhenNull(NonNull(onNull)).value| + |m.WhenHasValue(NonNull(onValue)).value| == 1
  {
  }

  /** On an absent instance `Bind` does not depend on `func`: any two
      functions give the same result. */
  lemma BindIgnoresFuncWhenAbsent<T, U>(m: Maybe<T>, f: T -> Maybe<U>, g: T -> Maybe<U>)
    ensures m.IsNull() ==> m.Bind(f) == m.Bind(g)
  {
  }

  /** Left identity (the chaining law): binding a freshly constructed
      instance is applying the function to its value. */
  lemma BindLeftIdentity<T, U>(v: T, f: T -> Maybe<U>)
    ensures Maybe<T>.New(NonNull(v)).Ok?
    ensures Maybe<T>.New(NonNull(v)).value.Bind(f) == f(v)
  {
  }

  /** Right identity: binding the constructor returns an instance with the
      same value as the receiver. */
  lemma BindRightIdentity<T>(m: Maybe<T>)
    ensures m.Bind((x: T) => Maybe<T>.New(NonNull(x)).value) == m
  {
  }

  /** Associativity: chaining two binds equals one bind of the chained
      function. */
  lemma BindAssociative<T, U, V>(m: Maybe<T>, f: T -> Maybe<U>, g: U -> Maybe<V>)
    ensures m.Bind(f).Bind(g) == m.Bind((x: T) => f(x).Bind(g))
  {
  }

  // ---------------------------------------------------------------------
  // Pipelines of binds.

  /** `m.Bind(fs[0]).Bind(fs[1])...`: a pipeline of chained binds whose
      steps all map `T` to `Maybe<T>`. */
  function BindAll<T>(m: Maybe<T>, fs: seq<T -> Maybe<T>>): Maybe<T>
    decreases |fs|
  {
    if fs == [] then m else BindAll(m.Bind(fs[0]), fs[1..])
  }

  /** Absence propagates through any pipeline of `T` to `Maybe<T>` steps:
      no step is applied and the result is absent. */
  lemma {:induction false} BindAllAbsent<T>(fs: seq<T -> Maybe<T>>)
    ensures BindAll(Maybe<T>.None(), fs) == Maybe<T>.None()
    decreases |fs|
  {
    if fs != [] {
      BindAllAbsent(fs[1..]);
    }
  }

  /** A pipeline can be cut anywhere: running `fs + gs` is running `gs` on
      what `fs` produced. */
  lemma {:induction false} BindAllAppend<T>(m: Maybe<T>, fs: seq<T -> Maybe<T>>, gs: seq<T -> Maybe<T>>)
    ensures BindAll(m, fs + gs) == BindAll(BindAll(m, fs), gs)
    decreases |fs|
  {
    if fs != [] {
      assert (fs + gs)[0] == fs[0] && (fs + gs)[1..] == fs[1..] + gs;
      BindAllAppend(m.Bind(fs[0]), fs[1..], gs);
    } else {
      assert fs + gs == gs;
    }
  }

  /** A pipeline whose result is present started present, and every prefix
      of it produced a present value: once a step yields absence, the
      rest of the pipeline cannot recover. */
  lemma {:induction false} BindAllPresentPrefixes<T>(m: Maybe<T>, fs: seq<T -> Maybe<T>>, k: nat)
    requires k <= |fs|
    requires BindAll(m, fs).HasValue()
    ensures BindAll(m, fs[..k]).HasValue()
  {
    assert fs == fs[..k] + fs[k..];
    BindAllAppend(m, fs[..k], fs[k..]);
    if BindAll(m, fs[..k]).IsNull() {
      assert BindAll(m, fs[..k]) == Maybe<T>.None();
      BindAllAbsent(fs[k..]);
    }
  }
}
