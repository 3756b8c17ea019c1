/**
  Properties of the render context that span several iterations of the
  `next()` loop or several calls of `next()`: children are delegated in
  index order, the cache-slot discipline is kept, and nested cached
  components commit bottom-up with each record holding everything rendered
  inside it.
 */
module RenderProperties {
  import opened Wrappers
  import opened RenderContext

  /* ------------------------------------------------------------------ */
  /* Child order                                                         */
  /* ------------------------------------------------------------------ */

  /**
    Calls `next()` `k` times in a row, collecting where each call stopped:
    what happens when every delegated child is rendered without leaving
    frames of its own behind (a text node, say) and resumes the loop.
   */
  function ResumeTimes(ctx: Context, k: nat): (r: (Context, seq<Action>))
    ensures |r.1| == k
    decreases k
  {
    if k == 0 then (ctx, [])
    else
      var n := Next(ctx);
      var rest := ResumeTimes(n.ctx, k - 1);
      (rest.0, [n.action] + rest.1)
  }

  /** An element or fragment frame whose cursor has moved on by `k`. */
  function AdvancedBy(s: RenderState, k: nat): (r: RenderState)
    requires s.Element? || s.Fragment?
  {
    match s
    case Element(rendered, total, children, endTag) => Element(rendered + k, total, children, endTag)
    case Fragment(rendered, total, children) => Fragment(rendered + k, total, children)
  }

  /** The context after the top element or fragment has advanced its cursor. */
  function AdvanceTop(ctx: Context): Context
    requires |ctx.renderStates| > 0 && (Top(ctx).Element? || Top(ctx).Fragment?)
  {
    ctx.(renderStates := Below(ctx) + [Advance(Top(ctx))])
  }

  /** A `next()` call on an element or fragment with children left delegates the next one and returns. */
  lemma NextOnDelegation(ctx: Context)
    requires |ctx.renderStates| > 0 && (Top(ctx).Element? || Top(ctx).Fragment?)
    requires Top(ctx).rendered < Top(ctx).total
    ensures Next(ctx) == NextResult(AdvanceTop(ctx), [], RenderChild(ChildAt(Top(ctx).children, Top(ctx).rendered)))
    ensures |AdvanceTop(ctx).renderStates| > 0 && Below(AdvanceTop(ctx)) == Below(ctx) && Top(AdvanceTop(ctx)) == Advance(Top(ctx))
  {
    var c := AdvanceTop(ctx);
    assert c.renderStates[..|c.renderStates| - 1] == Below(ctx);
  }

  /** `acts` starts with `k` delegations of `children[from]`, `children[from + 1]`, … in that order. */
  predicate DelegatesInOrder(acts: seq<Action>, children: seq<VNode>, from: nat, k: nat)
    requires k <= |acts| && from + k <= |children|
  {
    forall i :: 0 <= i < k ==> acts[i] == RenderChild(Some(children[from + i]))
  }

  /** Delegating `children[from]` before an in-order run from `from + 1` is an in-order run from `from`. */
  lemma DelegatesInOrderCons(acts: seq<Action>, children: seq<VNode>, from: nat, k: nat)
    requires 0 < k <= |acts| + 1 && from + k <= |children|
    requires DelegatesInOrder(acts, children, from + 1, k - 1)
    ensures DelegatesInOrder([RenderChild(Some(children[from]))] + acts, children, from, k)
  {
    var all := [RenderChild(Some(children[from]))] + acts;
    forall i | 0 < i < k
      ensures all[i] == RenderChild(Some(children[from + i]))
    {
      assert all[i] == acts[i - 1];
    }
  }

  /** `k > 0` resumptions are one `next()` call followed by `k - 1` more. */
  lemma ResumeTimesUnfold(ctx: Context, k: nat)
    requires k > 0
    ensures var n := Next(ctx);
            var rest := ResumeTimes(n.ctx, k - 1);
            ResumeTimes(ctx, k) == (rest.0, [n.action] + rest.1)
  {
  }

  /**
    The children of an element or fragment are delegated one per call of
    `next()`, in index order, and each call advances the cursor by one.
   */
  lemma {:induction false} ChildrenDelegatedInOrder(ctx: Context, k: nat)
    requires |ctx.renderStates| > 0
    requires Top(ctx).Element? || Top(ctx).Fragment?
    requires Top(ctx).rendered + k <= Top(ctx).total <= |Top(ctx).children|
    ensures var t := Top(ctx);
            var (c, acts) := ResumeTimes(ctx, k);
            && DelegatesInOrder(acts, t.children, t.rendered, k)
            && c == ctx.(renderStates := Below(ctx) + [AdvancedBy(t, k)])
    decreases k
  {
    var t := Top(ctx);
    if k == 0 {
      assert AdvancedBy(t, 0) == t;
      assert Below(ctx) + [t] == ctx.renderStates;
    } else {
      NextOnDelegation(ctx);
      ResumeTimesUnfold(ctx, k);
      var ctx1 := AdvanceTop(ctx);
      var t1 := Top(ctx1);
      assert t1.children == t.children && t1.rendered == t.rendered + 1;
      ChildrenDelegatedInOrder(ctx1, k - 1);
      var rest := ResumeTimes(ctx1, k - 1);
      DelegatesInOrderCons(rest.1, t.children, t.rendered, k);
      assert AdvancedBy(t1, k - 1) == AdvancedBy(t, k);
      assert ctx1.(renderStates := Below(ctx) + [AdvancedBy(t, k)]) == ctx.(renderStates := Below(ctx) + [AdvancedBy(t, k)]);
    }
  }

  /**
    Once its cursor reaches `total`, an element frame is popped and its end
    tag written as the one suspension of that `next()` call; a fragment is
    popped silently and the loop carries on with the frame below.
   */
  lemma ExhaustedFrameCloses(ctx: Context)
    requires |ctx.renderStates| > 0
    requires Top(ctx).Element? || Top(ctx).Fragment?
    requires Top(ctx).rendered >= Top(ctx).total
    ensures Top(ctx).Element? ==> Next(ctx) == NextResult(ctx.(renderStates := Below(ctx)), [], Write(Top(ctx).endTag))
    ensures Top(ctx).Fragment? ==> Next(ctx) == Next(ctx.(renderStates := Below(ctx)))
  {
  }

  /**
    An element whose children render without frames of their own produces
    exactly: every remaining child delegation in index order, then its end
    tag, and leaves the stack as it was below it.
   */
  lemma {:induction false} ElementRendersChildrenThenEndTag(ctx: Context)
    requires |ctx.renderStates| > 0
    requires Top(ctx).Element?
    requires Top(ctx).rendered <= Top(ctx).total <= |Top(ctx).children|
    ensures var t := Top(ctx);
            var k := t.total - t.rendered;
            var (c, acts) := ResumeTimes(ctx, k + 1);
            && DelegatesInOrder(acts, t.children, t.rendered, k)
            && acts[k] == Write(t.endTag)
            && c == ctx.(renderStates := Below(ctx))
    decreases Top(ctx).total - Top(ctx).rendered
  {
    var t := Top(ctx);
    var k := t.total - t.rendered;
    if k == 0 {
      ExhaustedFrameCloses(ctx);
      ResumeTimesUnfold(ctx, 1);
    } else {
      NextOnDelegation(ctx);
      ResumeTimesUnfold(ctx, k + 1);
      var ctx1 := AdvanceTop(ctx);
      var t1 := Top(ctx1);
      assert t1.children == t.children && t1.rendered == t.rendered + 1 && t1.total == t.total && t1.endTag == t.endTag;
      ElementRendersChildrenThenEndTag(ctx1);
      var rest := ResumeTimes(ctx1, k);
      DelegatesInOrderCons(rest.1, t.children, t.rendered, k);
      assert ([RenderChild(Some(t.children[t.rendered]))] + rest.1)[k] == rest.1[k - 1];
      assert ctx1.(renderStates := Below(ctx1)) == ctx.(renderStates := Below(ctx));
    }
  }

  /* ------------------------------------------------------------------ */
  /* Cache slots                                                         */
  /* ------------------------------------------------------------------ */

  /** The buffer slots of the cached-component frames, bottom of the stack first. */
  function CachedSlots(states: seq<RenderState>): (r: seq<nat>)
    ensures |r| <= |states|
  {
    if states == [] then []
    else
      var last := states[|states| - 1];
      CachedSlots(states[..|states| - 1]) + (if last.ComponentWithCache? then [last.bufferIndex] else [])
  }

  /**
    The discipline the renderer keeps when it opens cached components: the
    cached frames own slots 0, 1, 2, … from the bottom of the stack up, the
    shared buffers have exactly one slot per cached frame, and the writer is
    in caching mode exactly while a cached frame is on the stack.
   */
  predicate CacheConsistent(ctx: Context) {
    var slots := CachedSlots(ctx.renderStates);
    && |ctx.writer.cacheBuffer| == |slots|
    && |ctx.writer.componentBuffer| == |slots|
    && (forall i :: 0 <= i < |slots| ==> slots[i] == i)
    && (ctx.writer.caching <==> |slots| > 0)
    && (|slots| > 0 ==> ctx.cache.Some?)
  }

  /** One iteration of the loop keeps the cache-slot discipline and never reaches an impossible commit. */
  lemma StepPreservesCacheConsistency(ctx: Context)
    requires CacheConsistent(ctx)
    ensures !Step(ctx).action.Fault?
    ensures CacheConsistent(Step(ctx).ctx)
  {
    if ctx.renderStates != [] {
      if Top(ctx).ComponentWithCache? {
        CommitKeepsCacheConsistency(ctx);
      } else {
        PopKeepsCacheConsistency(ctx);
      }
    }
  }

  /** Committing the cached component on top frees exactly the last slot, which is its own. */
  lemma CommitKeepsCacheConsistency(ctx: Context)
    requires CacheConsistent(ctx)
    requires ctx.renderStates != [] && Top(ctx).ComponentWithCache?
    ensures !Step(ctx).action.Fault?
    ensures CacheConsistent(Step(ctx).ctx)
  {
    var t := Top(ctx);
    var slots := CachedSlots(ctx.renderStates);
    var below := CachedSlots(Below(ctx));
    assert ctx.renderStates == Below(ctx) + [t];
    assert slots == below + [t.bufferIndex];
    assert slots[|slots| - 1] == t.bufferIndex;
    assert t.bufferIndex == |slots| - 1;
    assert forall i :: 0 <= i < |below| ==> below[i] == slots[i];
    assert Step(ctx).ctx.renderStates == Below(ctx);
  }

  /** Any other frame leaves the writer alone and the cached frames where they were. */
  lemma PopKeepsCacheConsistency(ctx: Context)
    requires CacheConsistent(ctx)
    requires ctx.renderStates != [] && !Top(ctx).ComponentWithCache?
    ensures !Step(ctx).action.Fault?
    ensures CacheConsistent(Step(ctx).ctx)
  {
    var t := Top(ctx);
    assert ctx.renderStates == Below(ctx) + [t];
    assert CachedSlots(ctx.renderStates) == CachedSlots(Below(ctx));
    if t.Element? || t.Fragment? {
      var states' := Below(ctx) + [Advance(t)];
      assert states'[..|states'| - 1] == Below(ctx);
      assert CachedSlots(states') == CachedSlots(Below(ctx));
    }
  }

  /**
    A whole call of `next()` keeps the discipline, never faults, and when it
    finishes the writer is out of caching mode with empty buffers.
   */
  lemma {:induction false} NextPreservesCacheConsistency(ctx: Context)
    requires CacheConsistent(ctx)
    ensures !Next(ctx).action.Fault?
    ensures CacheConsistent(Next(ctx).ctx)
    ensures Next(ctx).action.Done? ==> Next(ctx).ctx.writer == Writer(false, [], [])
    decreases |ctx.renderStates|
  {
    StepPreservesCacheConsistency(ctx);
    var s := Step(ctx);
    if s.action.Continue? || s.action.CacheSet? {
      NextPreservesCacheConsistency(s.ctx);
    }
  }

  /* ------------------------------------------------------------------ */
  /* Nested cached components                                            */
  /* ------------------------------------------------------------------ */

  /** All buffered pieces joined in order. */
  function Concat(parts: seq<string>): string {
    if parts == [] then "" else Concat(parts[..|parts| - 1]) + parts[|parts| - 1]
  }

  /** The union of a sequence of component sets. */
  function UnionAll(sets: seq<set<ComponentInstance>>): set<ComponentInstance> {
    if sets == [] then {} else UnionAll(sets[..|sets| - 1]) + sets[|sets| - 1]
  }

  /** Merging the last slot into the one before it keeps the joined text. */
  lemma ConcatMergeLast(prefix: seq<string>, a: string, b: string)
    ensures Concat(prefix + [a + b]) == Concat(prefix + [a, b])
  {
    var xs := prefix + [a, b];
    assert xs[..|xs| - 1] == prefix + [a];
    assert (prefix + [a])[..|prefix|] == prefix;
    assert (prefix + [a + b])[..|prefix|] == prefix;
  }

  /** Merging the last set into the one before it keeps the union. */
  lemma UnionMergeLast(prefix: seq<set<ComponentInstance>>, a: set<ComponentInstance>, b: set<ComponentInstance>)
    ensures UnionAll(prefix + [a + b]) == UnionAll(prefix + [a, b])
  {
    var xs := prefix + [a, b];
    assert xs[..|xs| - 1] == prefix + [a];
    assert (prefix + [a])[..|prefix|] == prefix;
    assert (prefix + [a + b])[..|prefix|] == prefix;
  }

  /** The top `m` frames are cached components owning slots 0 … m-1, and those are all the slots there are. */
  predicate CachedChainOnTop(ctx: Context, m: nat) {
    && 1 <= m <= |ctx.renderStates|
    && |ctx.writer.cacheBuffer| == m
    && |ctx.writer.componentBuffer| == m
    && ctx.cache.Some?
    && forall p :: |ctx.renderStates| - m <= p < |ctx.renderStates| ==>
         && ctx.renderStates[p].ComponentWithCache?
         && ctx.renderStates[p].bufferIndex == p - (|ctx.renderStates| - m)
  }

  /** The context after the top cached component is committed and popped. */
  function CommitTop(ctx: Context): Context
    requires |ctx.renderStates| > 0 && Top(ctx).ComponentWithCache?
    requires CanCommit(ctx, Top(ctx).bufferIndex)
  {
    ctx.(renderStates := Below(ctx), writer := CommitWriter(ctx.writer, Top(ctx).bufferIndex))
  }

  /** The cache write made when the top cached component is committed. */
  function TopCommit(ctx: Context): CacheWrite
    requires |ctx.renderStates| > 0 && Top(ctx).ComponentWithCache?
    requires CanCommit(ctx, Top(ctx).bufferIndex)
  {
    var i := Top(ctx).bufferIndex;
    CacheWrite(Top(ctx).key, CacheEntry(ctx.writer.cacheBuffer[i], ctx.writer.componentBuffer[i]))
  }

  /** A `next()` call that starts on a committable cached component: one `cache.set`, then the loop goes on from the committed context. */
  lemma NextOnCommit(ctx: Context)
    requires |ctx.renderStates| > 0 && Top(ctx).ComponentWithCache?
    requires CanCommit(ctx, Top(ctx).bufferIndex)
    ensures Next(ctx) == Next(CommitTop(ctx)).(commits := [TopCommit(ctx)] + Next(CommitTop(ctx)).commits)
  {
  }

  /** The cache writes of a committed chain of `m` cached components, innermost first. */
  function ChainCommits(states: seq<RenderState>, buf: seq<string>, comps: seq<set<ComponentInstance>>, m: nat): (r: seq<CacheWrite>)
    requires m <= |states| && m <= |buf| && m <= |comps|
    requires forall p :: |states| - m <= p < |states| ==> states[p].ComponentWithCache?
    ensures |r| == m
  {
    seq(m, j requires 0 <= j < m =>
      CacheWrite(states[|states| - 1 - j].key, CacheEntry(Concat(buf[m - 1 - j..m]), UnionAll(comps[m - 1 - j..m]))))
  }

  /** A window of a buffer whose last two of `n` slots were merged into one, and the same window before the merge. */
  lemma SlicesAroundMerge<T>(xs: seq<T>, n: nat, merged: T, k: nat)
    requires 2 <= n <= |xs| && k <= n - 2
    ensures (xs[..n - 2] + [merged])[k..n - 1] == xs[k..n - 2] + [merged]
    ensures xs[k..n] == xs[k..n - 2] + [xs[n - 2], xs[n - 1]]
  {
  }

  /** Merging slot m-1 into slot m-2 turns the chain's writes for `m` slots into the first write followed by those for `m - 1` slots. */
  lemma ChainCommitsUnfold(states: seq<RenderState>, buf: seq<string>, comps: seq<set<ComponentInstance>>, m: nat)
    requires 1 <= m <= |states| && m <= |buf| && m <= |comps|
    requires forall p :: |states| - m <= p < |states| ==> states[p].ComponentWithCache?
    ensures var first := CacheWrite(states[|states| - 1].key, CacheEntry(buf[m - 1], comps[m - 1]));
            && (m == 1 ==> ChainCommits(states, buf, comps, m) == [first])
            && (m > 1 ==>
                  var buf1 := buf[..m - 2] + [buf[m - 2] + buf[m - 1]];
                  var comps1 := comps[..m - 2] + [comps[m - 2] + comps[m - 1]];
                  ChainCommits(states, buf, comps, m) == [first] + ChainCommits(states[..|states| - 1], buf1, comps1, m - 1))
  {
    var chain := ChainCommits(states, buf, comps, m);
    assert buf[m - 1..m] == [buf[m - 1]];
    assert comps[m - 1..m] == [comps[m - 1]];
    assert Concat([buf[m - 1]]) == buf[m - 1] by {
      assert [buf[m - 1]][..0] == [];
    }
    assert UnionAll([comps[m - 1]]) == comps[m - 1] by {
      assert [comps[m - 1]][..0] == [];
    }
    if m > 1 {
      var buf1 := buf[..m - 2] + [buf[m - 2] + buf[m - 1]];
      var comps1 := comps[..m - 2] + [comps[m - 2] + comps[m - 1]];
      var states1 := states[..|states| - 1];
      var chain1 := ChainCommits(states1, buf1, comps1, m - 1);
      forall j | 1 <= j < m
        ensures chain[j] == chain1[j - 1]
      {
        var k := m - 1 - j;
        assert states1[|states1| - 1 - (j - 1)] == states[|states| - 1 - j];
        SlicesAroundMerge(buf, m, buf[m - 2] + buf[m - 1], k);
        ConcatMergeLast(buf[k..m - 2], buf[m - 2], buf[m - 1]);
        SlicesAroundMerge(comps, m, comps[m - 2] + comps[m - 1], k);
        UnionMergeLast(comps[k..m - 2], comps[m - 2], comps[m - 1]);
      }
      assert chain == [chain[0]] + chain1;
    }
  }

  /** The context once a chain of `m` cached components has been committed: popped, caching mode off, buffers empty. */
  function AfterChain(ctx: Context, m: nat): Context
    requires m <= |ctx.renderStates|
  {
    ctx.(renderStates := ctx.renderStates[..|ctx.renderStates| - m], writer := Writer(false, [], []))
  }

  function ChainWrites(ctx: Context, m: nat): (r: seq<CacheWrite>)
    requires CachedChainOnTop(ctx, m)
    ensures |r| == m
  {
    ChainCommits(ctx.renderStates, ctx.writer.cacheBuffer, ctx.writer.componentBuffer, m)
  }

  /** Committing the innermost component of a chain leaves a chain one shorter with the same remaining writes. */
  lemma ChainCommitStep(ctx: Context, m: nat)
    requires CachedChainOnTop(ctx, m)
    ensures Top(ctx).ComponentWithCache? && CanCommit(ctx, Top(ctx).bufferIndex)
    ensures m == 1 ==> CommitTop(ctx) == AfterChain(ctx, m) && ChainWrites(ctx, m) == [TopCommit(ctx)]
    ensures m > 1 ==>
              && CachedChainOnTop(CommitTop(ctx), m - 1)
              && AfterChain(CommitTop(ctx), m - 1) == AfterChain(ctx, m)
              && ChainWrites(ctx, m) == [TopCommit(ctx)] + ChainWrites(CommitTop(ctx), m - 1)
  {
    var states := ctx.renderStates;
    var base := |states| - m;
    var w := ctx.writer;
    assert Top(ctx) == states[base + (m - 1)];
    ChainCommitsUnfold(states, w.cacheBuffer, w.componentBuffer, m);
    var ctx1 := CommitTop(ctx);
    if m == 1 {
      assert CommitWriter(w, 0) == Writer(false, [], []);
    } else {
      assert CachedChainOnTop(ctx1, m - 1) by {
        forall p | base <= p < |ctx1.renderStates|
          ensures ctx1.renderStates[p] == states[p]
        {
        }
      }
      assert ctx1.renderStates[..base] == states[..base];
      assert ctx1.writer.cacheBuffer == w.cacheBuffer[..m - 2] + [w.cacheBuffer[m - 2] + w.cacheBuffer[m - 1]];
      assert ctx1.writer.componentBuffer == w.componentBuffer[..m - 2] + [w.componentBuffer[m - 2] + w.componentBuffer[m - 1]];
    }
  }

  /** The outcome of a chain commit: `Next` from the context after the chain, preceded by the chain's writes. */
  ghost predicate CommitsChainThenContinues(ctx: Context, m: nat)
    requires CachedChainOnTop(ctx, m)
  {
    var n0 := Next(AfterChain(ctx, m));
    Next(ctx) == n0.(commits := ChainWrites(ctx, m) + n0.commits)
  }

  /** A chain of one cached component commits it and continues below it. */
  lemma ChainOfOneCommits(ctx: Context)
    requires CachedChainOnTop(ctx, 1)
    ensures CommitsChainThenContinues(ctx, 1)
  {
    ChainCommitStep(ctx, 1);
    NextOnCommit(ctx);
    assert CommitTop(ctx) == AfterChain(ctx, 1);
  }

  /** If the chain left after the top commit commits and continues, so does the whole chain. */
  lemma ChainCommitExtends(ctx: Context, m: nat)
    requires 1 < m && CachedChainOnTop(ctx, m)
    requires Top(ctx).ComponentWithCache? && CanCommit(ctx, Top(ctx).bufferIndex)
    requires CachedChainOnTop(CommitTop(ctx), m - 1) && CommitsChainThenContinues(CommitTop(ctx), m - 1)
    ensures CommitsChainThenContinues(ctx, m)
  {
    ChainCommitStep(ctx, m);
    NextOnCommit(ctx);
    var ctx1 := CommitTop(ctx);
    PrependTwice(Next(ctx), Next(ctx1), Next(AfterChain(ctx, m)), TopCommit(ctx), ChainWrites(ctx1, m - 1), ChainWrites(ctx, m));
  }

  /** Prefixing `[w]` to a result that already has `ws` prefixed is prefixing `[w] + ws` once. */
  lemma PrependTwice(x: NextResult, n1: NextResult, n0: NextResult, w: CacheWrite, ws: seq<CacheWrite>, all: seq<CacheWrite>)
    requires x == n1.(commits := [w] + n1.commits)
    requires n1 == n0.(commits := ws + n0.commits)
    requires all == [w] + ws
    ensures x == n0.(commits := all + n0.commits)
  {
    assert [w] + (ws + n0.commits) == ([w] + ws) + n0.commits;
  }

  /**
    Committing a chain of nested cached components: one `next()` call
    stores them innermost first, and the record stored for the component in
    slot `i` holds the text of slot `i` followed by that of every slot nested
    inside it, and the union of their component sets: what it would have
    held had the nested components not been cached. Afterwards the writer
    has left caching mode with empty buffers, and the loop goes on exactly
    as it would from the frames below the chain.
   */
  lemma {:induction false} CachedChainCommitsInnermostFirst(ctx: Context, m: nat)
    requires CachedChainOnTop(ctx, m)
    ensures Next(ctx) == Next(AfterChain(ctx, m)).(commits := ChainWrites(ctx, m) + Next(AfterChain(ctx, m)).commits)
    decreases m
  {
    if m == 1 {
      ChainOfOneCommits(ctx);
    } else {
      ChainCommitStep(ctx, m);
      CachedChainCommitsInnermostFirst(CommitTop(ctx), m - 1);
      ChainCommitExtends(ctx, m);
    }
  }
}
