/** The helpers of `src/utils.py` that the ingestion code uses: the vector
    sanitiser, the detection of coroutine functions behind `functools.partial`
    wrappers, and the list of background tasks run after a response. */
module Utils {
  import opened Common

  predicate AllFinite(v: seq<Num>) {
    forall i :: 0 <= i < |v| ==> v[i].Finite?
  }

  /** `sanitize_vector`: a finite component is kept and every NaN or infinite
      component becomes 0.0, so the vector store is never sent a non-finite value. */
  function SanitizeVector(v: seq<Num>): seq<Num> {
    seq(|v|, i requires 0 <= i < |v| => if v[i].Finite? then v[i] else Finite(0.0))
  }

  /** Sanitising keeps the length, keeps every finite component, replaces
      every other one by 0.0, and so leaves only finite components. */
  lemma SanitizeVectorMeans(v: seq<Num>)
    ensures |SanitizeVector(v)| == |v|
    ensures AllFinite(SanitizeVector(v))
    ensures forall i :: 0 <= i < |v| && v[i].Finite? ==> SanitizeVector(v)[i] == v[i]
    ensures forall i :: 0 <= i < |v| && !v[i].Finite? ==> SanitizeVector(v)[i] == Finite(0.0)
  {
  }

  /** Sanitising twice is sanitising once. */
  lemma SanitizeIdempotent(v: seq<Num>)
    ensures SanitizeVector(SanitizeVector(v)) == SanitizeVector(v)
  {
    var once := SanitizeVector(v);
    SanitizeVectorMeans(v);
    SanitizeVectorMeans(once);
    assert forall i :: 0 <= i < |once| ==> SanitizeVector(once)[i] == once[i];
  }

  /** A vector is left as it is exactly when all of its components are finite. */
  lemma SanitizeFixpoint(v: seq<Num>)
    ensures SanitizeVector(v) == v <==> AllFinite(v)
  {
    SanitizeVectorMeans(v);
    if AllFinite(v) {
      assert forall i :: 0 <= i < |v| ==> SanitizeVector(v)[i] == v[i];
    }
  }

  /** The worked example `[1.0, NaN, inf, -inf]`. */
  lemma SanitizeExample()
    ensures SanitizeVector([Finite(1.0), NaN, PosInf, NegInf])
         == [Finite(1.0), Finite(0.0), Finite(0.0), Finite(0.0)]
  {
  }

  /** A Python object as `is_async_callable` looks at it: a
      `functools.partial` around another object, or any other object,
      given by the answers to the three tests the function applies to it. */
  datatype Callable =
    | Partial(func: Callable, args: seq<string>)
    | Plain(isCoroutineFunction: bool, isCallable: bool, callIsCoroutineFunction: bool)

  /** The object reached by following `.func` through every partial layer. */
  function Unwrapped(c: Callable): (r: Callable)
    ensures r.Plain?
  {
    if c.Partial? then Unwrapped(c.func) else c
  }

  /** Calling the object yields a coroutine: it is a coroutine function, or a
      callable object whose `__call__` is one. */
  predicate IsAsync(c: Callable) {
    var p := Unwrapped(c);
    p.isCoroutineFunction || (p.isCallable && p.callIsCoroutineFunction)
  }

  /** `is_async_callable`: strips partial layers in a loop, then tests. */
  method IsAsyncCallable(obj: Callable) returns (b: bool)
    ensures b == IsAsync(obj)
  {
    var o := obj;
    while o.Partial?
      invariant Unwrapped(o) == Unwrapped(obj)
      decreases o
    {
      o := o.func;
    }
    b := o.isCoroutineFunction || (o.isCallable && o.callIsCoroutineFunction);
  }

  /** A deferred call: the function, its arguments, and whether it is awaited
      directly (otherwise it is run on a worker thread). */
  datatype BackgroundTask = BackgroundTask(func: Callable, args: seq<string>, isAsync: bool)

  /** `BackgroundTask.__init__`. */
  method NewBackgroundTask(func: Callable, args: seq<string>) returns (t: BackgroundTask)
    ensures t.func == func && t.args == args
    ensures t.isAsync <==> IsAsync(func)
  {
    var isAsync := IsAsyncCallable(func);
    t := BackgroundTask(func, args, isAsync);
  }

  /** `BackgroundTasks`: an ordered list of tasks that grows at the end. */
  class BackgroundTasks {
    var tasks: seq<BackgroundTask>

    /** Starts from a copy of the given tasks, or from no task when none
        (or an empty sequence) is given. */
    constructor (initial: Option<seq<BackgroundTask>>)
      ensures tasks == if initial.Some? then initial.value else []
    {
      tasks := if initial.Some? && initial.value != [] then initial.value else [];
    }

    /** `add_task`: appends one task; the tasks already there are unchanged. */
    method AddTask(func: Callable, args: seq<string>)
      modifies this
      ensures |tasks| == |old(tasks)| + 1
      ensures tasks[..|old(tasks)|] == old(tasks)
      ensures tasks[|old(tasks)|] == BackgroundTask(func, args, IsAsync(func))
    {
      var task := NewBackgroundTask(func, args);
      tasks := tasks + [task];
    }

    /** `__call__`: awaits the tasks one after the other, in list order. A task
        that raises stops the loop; `raises` says which tasks do. The result is
        the list of tasks started, in the order they were started. */
    method Call(raises: BackgroundTask -> bool) returns (ran: seq<BackgroundTask>, raised: bool)
      ensures ran <= tasks
      ensures forall i :: 0 <= i < |ran| - 1 ==> !raises(ran[i])
      ensures raised <==> ran != [] && raises(ran[|ran| - 1])
      ensures !raised ==> ran == tasks
    {
      ran, raised := [], false;
      var i := 0;
      while i < |tasks|
        invariant 0 <= i <= |tasks|
        invariant ran == tasks[..i]
        invariant forall j :: 0 <= j < i ==> !raises(tasks[j])
      {
        ran := ran + [tasks[i]];
        if raises(tasks[i]) {
          raised := true;
          return;
        }
        i := i + 1;
      }
    }
  }
}
