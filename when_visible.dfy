/** A model of `HydrateWhenVisible`: a wrapper that keeps its subtree inert (an
    empty placeholder) until the subtree's first element child intersects the
    viewport, and then hydrates it. The effect body, the intersection callback,
    the cleanup and the render choice are modelled; React, the DOM and the real
    IntersectionObserver are not.

    The pure part (State and the *Step functions) is the specification; the
    class HydrateWhenVisible performs the same steps imperatively, one field
    at a time, and is proved to match it. */
module WhenVisible {

  datatype Option<T> = None | Some(value: T)

  /** An element child of the container, by identity. */
  type Element = nat

  /** One intersection record handed to the observer callback. The ratio is only
      ever compared against zero. */
  datatype Entry = Entry(isIntersecting: bool, intersectionRatio: real)

  /** A call the component makes on its IntersectionObserver. */
  datatype IoCall = ObserveCall(el: Element) | UnobserveCall(el: Element)

  /** A function pushed onto `cleanupFns`: the closure that unobserves `target`. */
  datatype Teardown = UnobserveTeardown(target: Element)

  /** Everything the component's logic can change or is observed to do.
      - hydrated:     the flag owned by the hydration-state primitive
      - hydrateCalls: how many times `hydrate()` was called
      - observed:     the element the observer is currently watching, if any
      - cleanupFns:   the teardowns of the cleanup the latest effect run returned
                      ([] when it returned none)
      - calls:        every observe/unobserve call made so far, in order */
  datatype State = State(
    hydrated: bool,
    hydrateCalls: nat,
    observed: Option<Element>,
    cleanupFns: seq<Teardown>,
    calls: seq<IoCall>)

  /** The state of a freshly mounted instance. */
  function Initial(hydrated: bool): State
  {
    State(hydrated, 0, None, [], [])
  }

  // ---------------------------------------------------------------------------
  // Specification of the steps
  // ---------------------------------------------------------------------------

  /** `hydrate()`: an idempotent setter that only ever sets the flag to true. */
  function HydrateStep(s: State): State
  {
    s.(hydrated := true, hydrateCalls := s.hydrateCalls + 1)
  }

  /** `io.observe(el)` */
  function ObserveStep(s: State, el: Element): State
  {
    s.(observed := Some(el), calls := s.calls + [ObserveCall(el)])
  }

  /** `io.unobserve(el)`: the observer stops watching `el` if it was watching it. */
  function UnobserveStep(s: State, el: Element): State
  {
    s.(observed := if s.observed == Some(el) then None else s.observed,
       calls := s.calls + [UnobserveCall(el)])
  }

  /** Whether an effect run with these inputs returns a cleanup function. */
  predicate ReturnsCleanup(hydrated: bool, hasObserver: bool, children: seq<Element>)
  {
    !hydrated && hasObserver && |children| > 0
  }

  /** One run of the effect body. `hasObserver` stands for the presence of the
      IntersectionObserver capability and `children` for the container's element
      children (`childElementCount` is `|children|`). */
  function EffectStep(s: State, hasObserver: bool, children: seq<Element>): State
  {
    if s.hydrated then
      s.(cleanupFns := [])
    else if hasObserver && |children| > 0 then
      ObserveStep(s, children[0]).(cleanupFns := [UnobserveTeardown(children[0])])
    else
      HydrateStep(s.(cleanupFns := []))
  }

  /** An entry reports the element as visible. */
  predicate IsHit(e: Entry)
  {
    e.isIntersecting || e.intersectionRatio > 0.0
  }

  /** The observer callback's test: only the first entry of the batch is looked at. */
  predicate ShouldHydrate(entries: seq<Entry>)
  {
    |entries| > 0 && IsHit(entries[0])
  }

  /** One delivery of a batch of entries to the observer callback. */
  function IntersectStep(s: State, entries: seq<Entry>): State
  {
    if ShouldHydrate(entries) then HydrateStep(s) else s
  }

  /** Invoking the teardowns `fns` in order, from first to last. */
  function RunTeardowns(s: State, fns: seq<Teardown>): State
    decreases |fns|
  {
    if fns == [] then s
    else UnobserveStep(RunTeardowns(s, fns[..|fns| - 1]), fns[|fns| - 1].target)
  }

  /** Calling the cleanup returned by the latest effect run. */
  function CleanupStep(s: State): State
  {
    RunTeardowns(s, s.cleanupFns)
  }

  /** The unobserve calls that running `fns` is expected to make: one per teardown, in order. */
  function UnobserveCalls(fns: seq<Teardown>): (r: seq<IoCall>)
  {
    seq(|fns|, i requires 0 <= i < |fns| => UnobserveCall(fns[i].target))
  }

  // ---------------------------------------------------------------------------
  // Traces: the host drives the component through a sequence of actions
  // ---------------------------------------------------------------------------

  datatype Action =
    | EffectRun(hasObserver: bool, children: seq<Element>)
    | Delivery(entries: seq<Entry>)
    | CleanupRun

  function Step(s: State, a: Action): State
  {
    match a
    case EffectRun(hasObserver, children) => EffectStep(s, hasObserver, children)
    case Delivery(entries) => IntersectStep(s, entries)
    case CleanupRun => CleanupStep(s)
  }

  function Run(s: State, trace: seq<Action>): State
    decreases |trace|
  {
    if trace == [] then s else Run(Step(s, trace[0]), trace[1..])
  }

  // ---------------------------------------------------------------------------
  // Rendering
  // ---------------------------------------------------------------------------

  /** What the component renders into its container `div`. */
  datatype Rendered<C> =
    | Placeholder(suppressHydrationWarning: bool, innerHtml: string)
    | Live(children: C)

  /** The render choice: the live children once hydrated, otherwise an empty
      placeholder that suppresses the hydration-mismatch warning. */
  function Render<C>(hydrated: bool, children: C): (r: Rendered<C>)
    ensures r.Live? <==> hydrated
    ensures r.Live? ==> r.children == children
    ensures r.Placeholder? ==> r.suppressHydrationWarning && r.innerHtml == ""
  {
    if hydrated then Live(children) else Placeholder(true, "")
  }

  // ---------------------------------------------------------------------------
  // The invariant every reachable state keeps
  // ---------------------------------------------------------------------------

  /** Every unobserve call targets an element observed by an earlier call. */
  ghost predicate UnobservesFollowObserves(calls: seq<IoCall>)
  {
    forall i :: 0 <= i < |calls| && calls[i].UnobserveCall? ==> ObserveCall(calls[i].el) in calls[..i]
  }

  ghost predicate Inv(s: State)
  {
    && (s.hydrateCalls > 0 ==> s.hydrated)
    && |s.cleanupFns| <= 1
    && (forall t :: t in s.cleanupFns ==> ObserveCall(t.target) in s.calls)
    && (s.observed.Some? ==> ObserveCall(s.observed.value) in s.calls)
    && UnobservesFollowObserves(s.calls)
  }

  lemma InitialIsValid<C>(hydrated: bool, children: C)
    ensures Inv(Initial(hydrated))
    ensures Render(Initial(hydrated).hydrated, children).Live? == hydrated
  {
  }

  lemma FollowsAppend(calls: seq<IoCall>, c: IoCall)
    requires UnobservesFollowObserves(calls)
    requires c.UnobserveCall? ==> ObserveCall(c.el) in calls
    ensures UnobservesFollowObserves(calls + [c])
  {
    var all := calls + [c];
    forall i | 0 <= i < |all| && all[i].UnobserveCall?
      ensures ObserveCall(all[i].el) in all[..i]
    {
      if i < |calls| {
        assert all[..i] == calls[..i];
      } else {
        assert all[..i] == calls;
      }
    }
  }

  // ---------------------------------------------------------------------------
  // hydrate()
  // ---------------------------------------------------------------------------

  /** Calling `hydrate()` again changes nothing but the call count. */
  lemma HydrateIdempotent(s: State)
    ensures HydrateStep(HydrateStep(s)) == HydrateStep(s).(hydrateCalls := s.hydrateCalls + 2)
    ensures HydrateStep(s).hydrated
  {
  }

  // ---------------------------------------------------------------------------
  // The effect decision
  // ---------------------------------------------------------------------------

  /** Already hydrated: nothing is observed, `hydrate` is not called and no cleanup is returned. */
  lemma EffectWhenHydrated(s: State, hasObserver: bool, children: seq<Element>)
    requires s.hydrated
    ensures var s' := EffectStep(s, hasObserver, children);
      && s'.calls == s.calls && s'.hydrateCalls == s.hydrateCalls
      && s'.observed == s.observed && s'.hydrated && s'.cleanupFns == []
      && !ReturnsCleanup(s.hydrated, hasObserver, children)
  {
  }

  /** No IntersectionObserver capability: fail open, hydrate at once and observe nothing. */
  lemma EffectWithoutObserver(s: State, children: seq<Element>)
    requires !s.hydrated
    ensures var s' := EffectStep(s, false, children);
      && s'.calls == s.calls && s'.hydrateCalls == s.hydrateCalls + 1
      && s'.hydrated && s'.cleanupFns == []
      && Render(s'.hydrated, children).Live?
  {
  }

  /** Observer available but no element child: fail open, hydrate at once and observe nothing. */
  lemma EffectWithoutChildren(s: State)
    requires !s.hydrated
    ensures var s' := EffectStep(s, true, []);
      && s'.calls == s.calls && s'.hydrateCalls == s.hydrateCalls + 1
      && s'.hydrated && s'.cleanupFns == []
  {
  }

  /** Observer available and at least one element child: exactly `children[0]` is
      observed, `hydrate` is not called, and the returned cleanup holds one teardown
      for that element. */
  lemma EffectObservesFirstChild(s: State, children: seq<Element>)
    requires !s.hydrated && |children| > 0
    ensures var s' := EffectStep(s, true, children);
      && s'.calls == s.calls + [ObserveCall(children[0])]
      && s'.observed == Some(children[0])
      && s'.hydrateCalls == s.hydrateCalls && !s'.hydrated
      && s'.cleanupFns == [UnobserveTeardown(children[0])]
      && ReturnsCleanup(s.hydrated, true, children)
  {
  }

  /** For all inputs the effect does exactly one of three things, and which one is
      decided by the flag, the capability and the child count alone. */
  lemma EffectTrichotomy(s: State, hasObserver: bool, children: seq<Element>)
    ensures var s' := EffectStep(s, hasObserver, children);
      var skipped := s'.calls == s.calls && s'.hydrateCalls == s.hydrateCalls;
      var hydratedNow := s'.calls == s.calls && s'.hydrateCalls == s.hydrateCalls + 1;
      var observedOne := |children| > 0 && s'.calls == s.calls + [ObserveCall(children[0])]
                         && s'.hydrateCalls == s.hydrateCalls;
      && (skipped <==> s.hydrated)
      && (!s.hydrated && !(hasObserver && |children| > 0) <==> hydratedNow)
      && (ReturnsCleanup(s.hydrated, hasObserver, children) <==> observedOne)
      && (ReturnsCleanup(s.hydrated, hasObserver, children) <==> s'.cleanupFns != [])
  {
  }

  // ---------------------------------------------------------------------------
  // The observer callback
  // ---------------------------------------------------------------------------

  /** Entries after the first are ignored. */
  lemma HitUsesFirstEntryOnly(first: Entry, rest: seq<Entry>)
    ensures ShouldHydrate([first] + rest) <==> IsHit(first)
    ensures ShouldHydrate([first] + rest) == ShouldHydrate([first])
  {
  }

  /** A batch whose first entry neither intersects nor has a positive ratio never
      hydrates; neither does an empty batch. */
  lemma MissNeverHydrates(s: State, entries: seq<Entry>)
    requires entries == [] || (!entries[0].isIntersecting && entries[0].intersectionRatio <= 0.0)
    ensures IntersectStep(s, entries) == s
  {
  }

  /** The callback calls `hydrate()` exactly once when the test passes and not at all otherwise. */
  lemma IntersectHydratesIff(s: State, entries: seq<Entry>)
    ensures var s' := IntersectStep(s, entries);
      && (s'.hydrateCalls == s.hydrateCalls + 1 <==>
          |entries| > 0 && (entries[0].isIntersecting || entries[0].intersectionRatio > 0.0))
      && (s'.hydrateCalls == s.hydrateCalls <==> !ShouldHydrate(entries))
      && s'.calls == s.calls && s'.cleanupFns == s.cleanupFns
      && (s.hydrated ==> s'.hydrated)
  {
  }

  // ---------------------------------------------------------------------------
  // The cleanup
  // ---------------------------------------------------------------------------

  /** Running teardowns invokes each exactly once, in order, and touches nothing
      but the observer. */
  lemma {:induction false} RunTeardownsCalls(s: State, fns: seq<Teardown>)
    ensures var r := RunTeardowns(s, fns);
      && r.calls == s.calls + UnobserveCalls(fns)
      && r.hydrated == s.hydrated && r.hydrateCalls == s.hydrateCalls
      && r.cleanupFns == s.cleanupFns
    decreases |fns|
  {
    if fns != [] {
      var init := fns[..|fns| - 1];
      RunTeardownsCalls(s, init);
      assert UnobserveCalls(fns) == UnobserveCalls(init) + [UnobserveCall(fns[|fns| - 1].target)];
    }
  }

  /** After the teardowns run, none of their targets is still observed, and an
      element not among them stays observed. */
  lemma {:induction false} RunTeardownsReleases(s: State, fns: seq<Teardown>)
    ensures var r := RunTeardowns(s, fns);
      && (forall t :: t in fns ==> r.observed != Some(t.target))
      && (s.observed.Some? && UnobserveTeardown(s.observed.value) !in fns ==> r.observed == s.observed)
      && (r.observed.Some? ==> r.observed == s.observed)
    decreases |fns|
  {
    if fns != [] {
      var init := fns[..|fns| - 1];
      RunTeardownsReleases(s, init);
      assert fns == init + [fns[|fns| - 1]];
    }
  }

  /** Running teardowns whose targets were observed keeps the invariant. */
  lemma {:induction false} RunTeardownsKeepsInv(s: State, fns: seq<Teardown>)
    requires Inv(s)
    requires forall t :: t in fns ==> ObserveCall(t.target) in s.calls
    ensures Inv(RunTeardowns(s, fns))
    ensures s.calls <= RunTeardowns(s, fns).calls
    decreases |fns|
  {
    if fns != [] {
      var init := fns[..|fns| - 1];
      var last := fns[|fns| - 1];
      assert forall t :: t in init ==> t in fns;
      RunTeardownsKeepsInv(s, init);
      var mid := RunTeardowns(s, init);
      assert ObserveCall(last.target) in mid.calls by {
        assert last in fns;
        assert ObserveCall(last.target) in s.calls;
      }
      FollowsAppend(mid.calls, UnobserveCall(last.target));
      var r := UnobserveStep(mid, last.target);
      forall t | t in r.cleanupFns ensures ObserveCall(t.target) in r.calls {
        assert ObserveCall(t.target) in mid.calls;
      }
    }
  }

  /** The observe path followed by its cleanup: one observe and then one unobserve
      of the same element, and nothing else. */
  lemma ObserveThenCleanup(s: State, children: seq<Element>)
    requires !s.hydrated && |children| > 0
    ensures var s2 := CleanupStep(EffectStep(s, true, children));
      && s2.calls == s.calls + [ObserveCall(children[0]), UnobserveCall(children[0])]
      && s2.observed == None
      && s2.hydrateCalls == s.hydrateCalls && !s2.hydrated
  {
    var s1 := EffectStep(s, true, children);
    RunTeardownsCalls(s1, s1.cleanupFns);
    assert UnobserveCalls(s1.cleanupFns) == [UnobserveCall(children[0])];
    RunTeardownsReleases(s1, s1.cleanupFns);
    assert UnobserveTeardown(children[0]) in s1.cleanupFns;
  }

  // ---------------------------------------------------------------------------
  // Whole traces
  // ---------------------------------------------------------------------------

  lemma StepKeepsInv(s: State, a: Action)
    requires Inv(s)
    ensures Inv(Step(s, a))
    ensures s.calls <= Step(s, a).calls
  {
    match a
    case EffectRun(hasObserver, children) =>
      if !s.hydrated && hasObserver && |children| > 0 {
        FollowsAppend(s.calls, ObserveCall(children[0]));
      }
    case Delivery(entries) =>
    case CleanupRun =>
      RunTeardownsKeepsInv(s, s.cleanupFns);
  }

  /** Every state reachable from a valid one is valid: in particular every
      unobserve call ever made targets an element observed before it. */
  lemma {:induction false} RunKeepsInv(s: State, trace: seq<Action>)
    requires Inv(s)
    ensures Inv(Run(s, trace))
    ensures s.calls <= Run(s, trace).calls
    decreases |trace|
  {
    if trace != [] {
      StepKeepsInv(s, trace[0]);
      RunKeepsInv(Step(s, trace[0]), trace[1..]);
    }
  }

  /** One step never clears the flag or lowers the call count. */
  lemma StepMonotone(s: State, a: Action)
    ensures s.hydrated ==> Step(s, a).hydrated
    ensures s.hydrateCalls <= Step(s, a).hydrateCalls
  {
    if a.CleanupRun? {
      RunTeardownsCalls(s, s.cleanupFns);
    }
  }

  /** `hydrated` is monotonic: no sequence of effect runs, deliveries and cleanups
      ever sets it back to false. */
  lemma {:induction false} RunMonotone(s: State, trace: seq<Action>)
    ensures s.hydrated ==> Run(s, trace).hydrated
    ensures s.hydrateCalls <= Run(s, trace).hydrateCalls
    decreases |trace|
  {
    if trace != [] {
      StepMonotone(s, trace[0]);
      RunMonotone(Step(s, trace[0]), trace[1..]);
    }
  }

  /** Once hydrated, it renders live whatever the host does afterwards. */
  lemma RenderStaysLive<C>(s: State, trace: seq<Action>, children: C)
    requires s.hydrated
    ensures Render(Run(s, trace).hydrated, children) == Live(children)
  {
    RunMonotone(s, trace);
  }

  /** A step taken while hydrated makes no observe call: it can only append unobserve calls. */
  lemma StepWhenHydrated(s: State, a: Action)
    requires s.hydrated
    ensures var s' := Step(s, a);
      && s'.hydrated && s.calls <= s'.calls
      && forall i :: |s.calls| <= i < |s'.calls| ==> s'.calls[i].UnobserveCall?
  {
    if a.CleanupRun? {
      RunTeardownsCalls(s, s.cleanupFns);
    }
  }

  /** Activation is one-shot: once hydrated, no element is ever observed again. */
  lemma {:induction false} HydratedObservesNothing(s: State, trace: seq<Action>)
    requires s.hydrated
    ensures var r := Run(s, trace);
      && s.calls <= r.calls
      && forall i :: |s.calls| <= i < |r.calls| ==> !r.calls[i].ObserveCall?
    decreases |trace|
  {
    if trace != [] {
      var s1 := Step(s, trace[0]);
      StepWhenHydrated(s, trace[0]);
      HydratedObservesNothing(s1, trace[1..]);
      var r := Run(s, trace);
      forall i | |s.calls| <= i < |r.calls| ensures !r.calls[i].ObserveCall? {
        if i < |s1.calls| {
          assert r.calls[i] == s1.calls[i];
        }
      }
    }
  }

  /** A scenario: mount with an observer and one child, deliver a visible
      entry, let the effect re-run (cleanup first, then the effect). The instance ends
      hydrated, having observed and unobserved the child once each. */
  lemma VisibleScenario(el: Element)
    ensures var r := Run(Initial(false), [EffectRun(true, [el]), Delivery([Entry(true, 0.0)]),
                                          CleanupRun, EffectRun(true, [el])]);
      && r.hydrated && r.hydrateCalls == 1
      && r.calls == [ObserveCall(el), UnobserveCall(el)]
      && r.observed == None && r.cleanupFns == []
  {
    var s0 := Initial(false);
    var s1 := EffectStep(s0, true, [el]);
    var s2 := IntersectStep(s1, [Entry(true, 0.0)]);
    assert s2 == HydrateStep(s1);
    ObserveThenCleanup(s0, [el]);
    var s3 := CleanupStep(s2);
    RunTeardownsCalls(s2, s2.cleanupFns);
    RunTeardownsReleases(s2, s2.cleanupFns);
    assert UnobserveCalls(s2.cleanupFns) == [UnobserveCall(el)];
    assert UnobserveTeardown(el) in s2.cleanupFns;
    var s4 := EffectStep(s3, true, [el]);
    assert Run(s4, []) == s4;
    assert Run(s0, [EffectRun(true, [el]), Delivery([Entry(true, 0.0)]), CleanupRun, EffectRun(true, [el])])
        == Run(s1, [Delivery([Entry(true, 0.0)]), CleanupRun, EffectRun(true, [el])]);
    assert Run(s1, [Delivery([Entry(true, 0.0)]), CleanupRun, EffectRun(true, [el])])
        == Run(s2, [CleanupRun, EffectRun(true, [el])]);
    assert Run(s2, [CleanupRun, EffectRun(true, [el])]) == Run(s3, [EffectRun(true, [el])]);
  }

  // ---------------------------------------------------------------------------
  // The component, updating its state in place
  // ---------------------------------------------------------------------------

  class HydrateWhenVisible {
    var hydrated: bool
    var hydrateCalls: nat
    var observed: Option<Element>
    var cleanupFns: seq<Teardown>
    var calls: seq<IoCall>

    function Snapshot(): State
      reads this
    {
      State(hydrated, hydrateCalls, observed, cleanupFns, calls)
    }

    ghost predicate Valid()
      reads this
    {
      Inv(Snapshot())
    }

    /** Mounting: `initiallyHydrated` is whatever the hydration-state primitive starts with. */
    constructor (initiallyHydrated: bool)
      ensures Valid()
      ensures Snapshot() == Initial(initiallyHydrated)
    {
      hydrated := initiallyHydrated;
      hydrateCalls := 0;
      observed := None;
      cleanupFns := [];
      calls := [];
    }

    /** `hydrate()` from the hydration-state primitive. */
    method Hydrate()
      requires Valid()
      modifies this
      ensures Valid()
      ensures Snapshot() == HydrateStep(old(Snapshot()))
    {
      hydrated := true;
      hydrateCalls := hydrateCalls + 1;
    }

    /** `io.observe(el)` */
    method Observe(el: Element)
      requires Valid()
      modifies this
      ensures Valid()
      ensures Snapshot() == ObserveStep(old(Snapshot()), el)
    {
      FollowsAppend(calls, ObserveCall(el));
      observed := Some(el);
      calls := calls + [ObserveCall(el)];
    }

    /** `io.unobserve(el)` */
    method Unobserve(el: Element)
      requires Valid() && ObserveCall(el) in calls
      modifies this
      ensures Valid()
      ensures Snapshot() == UnobserveStep(old(Snapshot()), el)
    {
      FollowsAppend(calls, UnobserveCall(el));
      if observed == Some(el) {
        observed := None;
      }
      calls := calls + [UnobserveCall(el)];
    }

    /** The effect body; `returnsCleanup` tells whether it returned `cleanup`. */
    method RunEffect(hasObserver: bool, children: seq<Element>) returns (returnsCleanup: bool)
      requires Valid()
      modifies this
      ensures Valid()
      ensures Snapshot() == EffectStep(old(Snapshot()), hasObserver, children)
      ensures returnsCleanup == ReturnsCleanup(old(hydrated), hasObserver, children)
    {
      ghost var before := Snapshot();
      StepKeepsInv(before, EffectRun(hasObserver, children));
      if hydrated {
        // Early return: no cleanup is returned, so none is held.
        cleanupFns := [];
        return false;
      }
      cleanupFns := [];
      if hasObserver && |children| > 0 {
        var el := children[0];
        Observe(el);
        cleanupFns := cleanupFns + [UnobserveTeardown(el)];
        returnsCleanup := true;
      } else {
        Hydrate();
        returnsCleanup := false;
      }
    }

    /** The IntersectionObserver callback, for one delivered batch. */
    method OnIntersect(entries: seq<Entry>)
      requires Valid()
      modifies this
      ensures Valid()
      ensures Snapshot() == IntersectStep(old(Snapshot()), entries)
    {
      StepKeepsInv(Snapshot(), Delivery(entries));
      if |entries| > 0 {
        var entry := entries[0];
        if entry.isIntersecting || entry.intersectionRatio > 0.0 {
          Hydrate();
        }
      }
    }

    /** `cleanup()`: invokes every recorded teardown, first to last. */
    method Cleanup()
      requires Valid()
      modifies this
      ensures Valid()
      ensures Snapshot() == CleanupStep(old(Snapshot()))
    {
      ghost var before := Snapshot();
      StepKeepsInv(before, CleanupRun);
      for i := 0 to |cleanupFns|
        invariant cleanupFns == before.cleanupFns
        invariant Snapshot() == RunTeardowns(before, before.cleanupFns[..i])
        invariant Valid() && before.calls <= calls
      {
        assert before.cleanupFns[..i + 1][..i] == before.cleanupFns[..i];
        assert ObserveCall(cleanupFns[i].target) in calls by {
          assert cleanupFns[i] in before.cleanupFns;
        }
        RunTeardownsKeepsInv(before, before.cleanupFns[..i + 1]);
        Unobserve(cleanupFns[i].target);
      }
      assert before.cleanupFns[..|before.cleanupFns|] == before.cleanupFns;
    }
  }
}
