/**
  The server renderer's render context: a LIFO stack of render states
  driven by a non-recursive `next()` loop, the constructor's cache check,
  and the normalisation of a user cache's `get`/`has` methods.

  The asynchronous collaborators are not called: every point where the
  source calls `renderNode`, `write`, `done` or `cache.set` is returned
  as an `Action` instead. The render-state stack is a sequence whose LAST
  element is the top of the stack, as with the source's array and `pop()`.
 */
module RenderContext {
  import opened Wrappers

  /** A virtual node; the machine never looks inside one. */
  type VNode(==)

  /** A component instance (the `activeInstance` and the members of a cached component set). */
  type ComponentInstance(==)

  /** Whatever a user cache's `get` or `has` returns. */
  type JsValue

  /** The callback a caller hands to a normalised cache accessor. */
  type Callback(==)

  /* ------------------------------------------------------------------ */
  /* Data model                                                          */
  /* ------------------------------------------------------------------ */

  /**
    One frame of the render-state stack.
    - `Element`: the children of an element; `endTag` is the closing tag written after them.
    - `Fragment`: the children of a fragment; nothing is written after them.
    - `Component`: restores the active instance when the component's subtree is done.
    - `ComponentWithCache`: a component whose output is being collected in slot
      `bufferIndex` of the writer's shared buffers, to be stored under `key`.
   */
  datatype RenderState =
    | Element(rendered: nat, total: nat, children: seq<VNode>, endTag: string)
    | Fragment(rendered: nat, total: nat, children: seq<VNode>)
    | Component(prevActive: ComponentInstance)
    | ComponentWithCache(bufferIndex: nat, key: string)

  /**
    The properties the renderer keeps on its `write` function, with the
    buffers of the cached frames. A frame's own `buffer` and
    `componentBuffer` references are not kept: the model takes every frame's
    pair to be this one shared pair.
   */
  datatype Writer = Writer(caching: bool, cacheBuffer: seq<string>, componentBuffer: seq<set<ComponentInstance>>)

  /** A `get` or `has` method of a user cache: its declared parameter count and what a one-argument call returns. */
  datatype CacheMethod = CacheMethod(arity: nat, answer: string -> JsValue)

  /** A user cache object; only the presence of `set` matters to the model. */
  datatype Cache = Cache(get: Option<CacheMethod>, has: Option<CacheMethod>, hasSet: bool)

  datatype MethodName = Get | Has

  /** A normalised `(key, cb)` accessor around one cache method. */
  datatype Accessor =
    | Forwarding(fn: CacheMethod)   // the method itself takes `(key, cb)`
    | Synchronous(fn: CacheMethod)  // the method returns its answer, which is passed to `cb`

  /** The arguments a cache method receives. */
  datatype CallArgs = KeyOnly(key: string) | KeyAndCallback(key: string, cb: Callback)

  /** What one call of an accessor does: the call made on the cache method, and the calls the wrapper itself makes on callbacks. */
  datatype AccessorCall = AccessorCall(methodCall: CallArgs, callbacks: seq<(Callback, JsValue)>)

  datatype RenderOptions = RenderOptions(activeInstance: ComponentInstance, writer: Writer, cache: Option<Cache>)

  datatype Context = Context(
    renderStates: seq<RenderState>,
    activeInstance: ComponentInstance,
    writer: Writer,
    cache: Option<Cache>,
    get: Option<Accessor>,
    has: Option<Accessor>)

  datatype ConfigError = CacheMustImplementGetAndSet

  /** The record a cached component's output is stored as. */
  datatype CacheEntry = CacheEntry(html: string, components: set<ComponentInstance>)

  datatype CacheWrite = CacheWrite(key: string, entry: CacheEntry)

  /** What one iteration of the `next()` loop does. */
  datatype Action =
    | Done                               // `done()` with no error; the loop returns
    | RenderChild(child: Option<VNode>)  // `renderNode(children[rendered], false, this)`; the loop returns
    | Write(text: string)                // `write(endTag, next)`; the loop returns
    | Continue                           // a frame was popped; the loop goes on
    | CacheSet(key: string, entry: CacheEntry)  // `cache.set(key, entry)`; the loop goes on
    | Fault                              // a commit the source cannot perform (see `CanCommit`)

  datatype StepResult = StepResult(ctx: Context, action: Action)

  /** The outcome of one call of `next()`: the final context, the cache writes made on the way, and the action it stopped on. */
  datatype NextResult = NextResult(ctx: Context, commits: seq<CacheWrite>, action: Action)

  /** The actions on which the `next()` loop returns to its caller. */
  predicate Suspends(a: Action) {
    a.Done? || a.RenderChild? || a.Write? || a.Fault?
  }

  /* ------------------------------------------------------------------ */
  /* Cache normalisation and construction                                */
  /* ------------------------------------------------------------------ */

  function Lookup(cache: Cache, name: MethodName): Option<CacheMethod> {
    match name
    case Get => cache.get
    case Has => cache.has
  }

  /** `normalizeAsync(cache, method)`: absent when the method is, otherwise chosen by the method's arity. */
  function NormalizeAsync(cache: Cache, name: MethodName): (r: Option<Accessor>)
    ensures r.None? <==> Lookup(cache, name).None?
    ensures r.Some? ==> r.value.fn == Lookup(cache, name).value
    ensures r.Some? ==> (r.value.Forwarding? <==> r.value.fn.arity > 1)
  {
    match Lookup(cache, name)
    case None => None
    case Some(m) => if m.arity > 1 then Some(Forwarding(m)) else Some(Synchronous(m))
  }

  /** Calling a normalised accessor with `(key, cb)`. */
  function Invoke(acc: Accessor, key: string, cb: Callback): (r: AccessorCall)
    ensures acc.Forwarding? ==> r.methodCall == KeyAndCallback(key, cb) && r.callbacks == []
    ensures acc.Synchronous? ==> r.methodCall == KeyOnly(key) && |r.callbacks| == 1
    ensures acc.Synchronous? ==> r.callbacks[0] == (cb, acc.fn.answer(key))
  {
    match acc
    case Forwarding(m) => AccessorCall(KeyAndCallback(key, cb), [])
    case Synchronous(m) => AccessorCall(KeyOnly(key), [(cb, m.answer(key))])
  }

  /**
    Whatever the method's calling convention, the normalised accessor either
    hands the caller's callback to the method untouched (arity above one) or
    calls it exactly once, synchronously, with the method's return value.
   */
  lemma NormalizedAccessorAnswersOnce(cache: Cache, name: MethodName, key: string, cb: Callback)
    requires Lookup(cache, name).Some?
    ensures var m := Lookup(cache, name).value;
            var call := Invoke(NormalizeAsync(cache, name).value, key, cb);
            && (m.arity > 1 ==> call == AccessorCall(KeyAndCallback(key, cb), []))
            && (m.arity <= 1 ==> call == AccessorCall(KeyOnly(key), [(cb, m.answer(key))]))
  {
  }

  /** The constructor: a cache lacking `get` or `set` is refused; with no cache there are no accessors. */
  function NewContext(options: RenderOptions): (r: Result<Context, ConfigError>)
    ensures r.Failure? <==> options.cache.Some? && (options.cache.value.get.None? || !options.cache.value.hasSet)
    ensures r.Success? ==> r.value.renderStates == [] && r.value.activeInstance == options.activeInstance
    ensures r.Success? ==> r.value.writer == options.writer && r.value.cache == options.cache
    ensures r.Success? && options.cache.None? ==> r.value.get.None? && r.value.has.None?
    ensures r.Success? && options.cache.Some? ==>
              && r.value.get == NormalizeAsync(options.cache.value, Get)
              && r.value.has == NormalizeAsync(options.cache.value, Has)
    ensures r.Success? && options.cache.Some? ==> r.value.get.Some?
  {
    match options.cache
    case None =>
      Success(Context([], options.activeInstance, options.writer, None, None, None))
    case Some(cache) =>
      if cache.get.None? || !cache.hasSet then Failure(CacheMustImplementGetAndSet)
      else Success(Context([], options.activeInstance, options.writer, options.cache,
                           NormalizeAsync(cache, Get), NormalizeAsync(cache, Has)))
  }

  /* ------------------------------------------------------------------ */
  /* The next() loop                                                     */
  /* ------------------------------------------------------------------ */

  function Top(ctx: Context): RenderState
    requires |ctx.renderStates| > 0
  {
    ctx.renderStates[|ctx.renderStates| - 1]
  }

  /** The stack after `pop()`. */
  function Below(ctx: Context): seq<RenderState>
    requires |ctx.renderStates| > 0
  {
    ctx.renderStates[..|ctx.renderStates| - 1]
  }

  /** The frame after `rendered++`. */
  function Advance(s: RenderState): (r: RenderState)
    requires s.Element? || s.Fragment?
  {
    match s
    case Element(rendered, total, children, endTag) => Element(rendered + 1, total, children, endTag)
    case Fragment(rendered, total, children) => Fragment(rendered + 1, total, children)
  }

  /** `children[i]`, where an index past the end reads as `undefined`. */
  function ChildAt(children: seq<VNode>, i: nat): (r: Option<VNode>)
    ensures r.Some? <==> i < |children|
    ensures r.Some? ==> r.value == children[i]
  {
    if i < |children| then Some(children[i]) else None
  }

  /**
    A cached component can be committed when the context has a cache and its
    slot exists in both shared buffers. The renderer only pushes such frames;
    for the others the source would store `undefined` or throw a TypeError.
   */
  predicate CanCommit(ctx: Context, bufferIndex: nat) {
    && ctx.cache.Some?
    && bufferIndex < |ctx.writer.cacheBuffer|
    && bufferIndex < |ctx.writer.componentBuffer|
  }

  /** The writer after committing slot `i`: merged into slot `i - 1` (or caching switched off at 0), then truncated to length `i`. */
  function CommitWriter(w: Writer, i: nat): Writer
    requires i < |w.cacheBuffer| && i < |w.componentBuffer|
  {
    if i == 0 then
      w.(caching := false, cacheBuffer := [], componentBuffer := [])
    else
      w.(cacheBuffer := w.cacheBuffer[..i - 1] + [w.cacheBuffer[i - 1] + w.cacheBuffer[i]],
         componentBuffer := w.componentBuffer[..i - 1] + [w.componentBuffer[i - 1] + w.componentBuffer[i]])
  }

  /** One iteration of the `while (true)` loop of `next()`. */
  function Step(ctx: Context): (r: StepResult)
    // the loop finishes exactly when the stack is empty
    ensures r.action.Done? <==> ctx.renderStates == []
    ensures r.action.Done? ==> r.ctx == ctx
    // an unfinished element or fragment delegates its next child and advances its cursor
    ensures ctx.renderStates != [] && (Top(ctx).Element? || Top(ctx).Fragment?) && Top(ctx).rendered < Top(ctx).total ==>
              && r.action == RenderChild(ChildAt(Top(ctx).children, Top(ctx).rendered))
              && r.ctx == ctx.(renderStates := Below(ctx) + [Advance(Top(ctx))])
    // a finished element writes its end tag; a finished fragment writes nothing
    ensures ctx.renderStates != [] && (Top(ctx).Element? || Top(ctx).Fragment?) && Top(ctx).rendered >= Top(ctx).total ==>
              && r.ctx == ctx.(renderStates := Below(ctx))
              && r.action == (if Top(ctx).Element? then Write(Top(ctx).endTag) else Continue)
    // a component frame restores the previous active instance without suspending
    ensures ctx.renderStates != [] && Top(ctx).Component? ==>
              && r.ctx == ctx.(renderStates := Below(ctx), activeInstance := Top(ctx).prevActive)
              && r.action == Continue
    // a cached component is stored once, then merged into its parent's slot or ends caching mode
    ensures ctx.renderStates != [] && Top(ctx).ComponentWithCache? && CanCommit(ctx, Top(ctx).bufferIndex) ==>
              var i := Top(ctx).bufferIndex;
              var w := ctx.writer;
              var w' := r.ctx.writer;
              && r.action == CacheSet(Top(ctx).key, CacheEntry(w.cacheBuffer[i], w.componentBuffer[i]))
              && r.ctx == ctx.(renderStates := Below(ctx), writer := w')
              && |w'.cacheBuffer| == i && |w'.componentBuffer| == i
              && (i == 0 ==> !w'.caching)
              && (i > 0 ==> && w'.caching == w.caching
                            && w'.cacheBuffer[..i - 1] == w.cacheBuffer[..i - 1]
                            && w'.cacheBuffer[i - 1] == w.cacheBuffer[i - 1] + w.cacheBuffer[i]
                            && w'.componentBuffer[..i - 1] == w.componentBuffer[..i - 1]
                            && w'.componentBuffer[i - 1] == w.componentBuffer[i - 1] + w.componentBuffer[i])
    ensures ctx.renderStates != [] && Top(ctx).ComponentWithCache? && !CanCommit(ctx, Top(ctx).bufferIndex) ==>
              r.action == Fault
    // every non-delegating transition pops exactly one frame
    ensures r.action.Write? || r.action.Continue? || r.action.CacheSet? || r.action.Fault? ==>
              r.ctx.renderStates == Below(ctx)
    // only a commit touches the writer's state
    ensures !r.action.CacheSet? ==> r.ctx.writer == ctx.writer
  {
    if ctx.renderStates == [] then StepResult(ctx, Done)
    else
      var top := Top(ctx);
      var popped := ctx.(renderStates := Below(ctx));
      match top
      case Element(rendered, total, children, endTag) =>
        if rendered < total then
          StepResult(ctx.(renderStates := Below(ctx) + [Advance(top)]),
                     RenderChild(ChildAt(children, rendered)))
        else StepResult(popped, Write(endTag))
      case Fragment(rendered, total, children) =>
        if rendered < total then
          StepResult(ctx.(renderStates := Below(ctx) + [Advance(top)]),
                     RenderChild(ChildAt(children, rendered)))
        else StepResult(popped, Continue)
      case Component(prevActive) =>
        StepResult(popped.(activeInstance := prevActive), Continue)
      case ComponentWithCache(bufferIndex, key) =>
        if !CanCommit(ctx, bufferIndex) then StepResult(popped, Fault)
        else
          var w := ctx.writer;
          var entry := CacheEntry(w.cacheBuffer[bufferIndex], w.componentBuffer[bufferIndex]);
          StepResult(popped.(writer := CommitWriter(w, bufferIndex)), CacheSet(key, entry))
  }

  /** One call of `next()`: iterate `Step` until it suspends, collecting the `cache.set` calls made on the way. */
  function Next(ctx: Context): (r: NextResult)
    ensures Suspends(r.action)
    ensures r.action.Done? ==> r.ctx.renderStates == []
    decreases |ctx.renderStates|
  {
    var s := Step(ctx);
    match s.action
    case Continue => Next(s.ctx)
    case CacheSet(key, entry) =>
      var n := Next(s.ctx);
      n.(commits := [CacheWrite(key, entry)] + n.commits)
    case _ => NextResult(s.ctx, [], s.action)
  }

  /**
    What one `next()` call can do to a stack `before`: it only pops, records
    at most one commit per popped frame, and when it suspends to render a
    child it has advanced the cursor of the element or fragment now on top;
    writing an end tag always pops at least that element.
  */
  predicate ShapeOk(before: seq<RenderState>, r: NextResult) {
    var after := r.ctx.renderStates;
    && |r.commits| <= |before| - |after|
    && (!r.action.RenderChild? ==> after == before[..|after|])
    && (r.action.RenderChild? ==>
          && 0 < |after| <= |before|
          && after[..|after| - 1] == before[..|after| - 1]
          && var s := before[|after| - 1];
             (s.Element? || s.Fragment?) && after[|after| - 1] == Advance(s))
    && (r.action.Write? ==> |after| < |before|)
  }

  /** `next()` keeps the shape of the stack described by `ShapeOk`. */
  lemma {:induction false} NextShape(ctx: Context)
    ensures ShapeOk(ctx.renderStates, Next(ctx))
    decreases |ctx.renderStates|
  {
    var st := Step(ctx);
    if st.action.Continue? || st.action.CacheSet? {
      NextShape(st.ctx);
      var n := Next(st.ctx);
      assert Next(ctx).ctx == n.ctx && Next(ctx).action == n.action;
      assert |Next(ctx).commits| <= |n.commits| + 1;
      ShapeThroughPop(ctx.renderStates, st.ctx.renderStates, n, Next(ctx));
    } else {
      assert Next(ctx) == NextResult(st.ctx, [], st.action);
    }
  }

  /** A frame popped before the rest of a `next()` call keeps the shape, with one more commit allowed. */
  lemma ShapeThroughPop(before: seq<RenderState>, popped: seq<RenderState>, n: NextResult, r: NextResult)
    requires |before| > 0 && popped == before[..|before| - 1]
    requires ShapeOk(popped, n)
    requires r.ctx == n.ctx && r.action == n.action && |r.commits| <= |n.commits| + 1
    ensures ShapeOk(before, r)
  {
    var after := n.ctx.renderStates;
    assert popped[..|after|] == before[..|after|];
    if n.action.RenderChild? {
      var j := |after| - 1;
      assert popped[..j] == before[..j];
      assert popped[j] == before[j];
    }
  }
}
