# HydrateWhenVisible, modelled in Dafny

`HydrateWhenVisible` (react-lazy-hydration) wraps a server-rendered subtree in a
`div`. It keeps the subtree inert until the subtree becomes visible, then
hydrates it. While it is not hydrated, it renders an empty placeholder with
`suppressHydrationWarning`. Its effect then does one of three things:

- nothing, if the subtree is already hydrated;
- watch the container's first element child with an `IntersectionObserver`,
  and return a cleanup that unobserves it;
- call `hydrate()` at once (fail open), when there is no observer capability or
  no element child to watch.

The observer callback calls `hydrate()` when the first entry of a batch
intersects or has a positive intersection ratio.

`when_visible.dfy` holds one module, `WhenVisible`, in two layers:

- **Specification.** A `State` value holds the hydration flag, the number of
  `hydrate()` calls, the element being observed, the teardowns of the current
  cleanup, and the log of observe/unobserve calls. Pure step functions say what
  each part of the component does to that state: `EffectStep`, `IntersectStep`,
  `CleanupStep` (a fold, `RunTeardowns`) and `HydrateStep`. `Render` gives the
  render choice. `Run` drives a state through any sequence of host actions.
- **The component.** The class `HydrateWhenVisible` has those same fields. Its
  methods `RunEffect`, `OnIntersect` and `Cleanup` update them step by step, as
  the source does; `Cleanup` loops over `cleanupFns`. Each method is proved to
  produce exactly the state the matching step function gives. Each also keeps
  the invariant `Inv`: every unobserve call targets an element that an earlier
  call observed, there is at most one teardown, and a non-zero `hydrate()` count
  implies `hydrated`.

The lemmas prove the intended properties of the specification:

- the three-way effect decision;
- the first-entry-only hit test;
- each teardown runs once, in order, and unobserves exactly what was observed;
- `hydrated` never goes back to false over any trace;
- after hydration no element is observed again, and the render stays live.

Three points where the source's own comments or structure could mislead:

- The comment at src/whenVisible.tsx:28-29 says only one element is observed,
  so only the first entry matters. The code at line 30 still guards against an
  empty batch (`entries.length`), and so does `ShouldHydrate`.
- Nothing in the callback tears the subscription down after `hydrate()`. That
  happens only because `hydrated` is in the effect's dependency array (line 52):
  React calls the previous cleanup and then re-runs the effect, which returns
  early at line 16. The model makes these two explicit actions, `CleanupRun`
  and then `EffectRun` (see `VisibleScenario`).
- `cleanup` never empties `cleanupFns`. Calling it twice would unobserve twice,
  so `Cleanup` leaves `cleanupFns` unchanged too.

## Model

| member | source | states |
|---|---|---|
| `WhenVisible.HydrateWhenVisible.constructor` | src/whenVisible.tsx:12-13 | a mounted instance starts with the primitive's flag, no `hydrate()` calls, nothing observed, no cleanup, and satisfies the invariant |
| `WhenVisible.HydrateWhenVisible.Hydrate` | src/whenVisible.tsx:13 | `hydrate()` sets the flag to true, counts one call, changes nothing else and keeps the invariant |
| `WhenVisible.HydrateWhenVisible.Observe` | src/whenVisible.tsx:42 | `io.observe(el)` records one observe call for `el`, which becomes the observed element, and keeps the invariant |
| `WhenVisible.HydrateWhenVisible.Unobserve` | src/whenVisible.tsx:44-46 | `io.unobserve(el)` records one unobserve call for `el` and stops observing `el` if it was the observed element; called only on an element observed before (as the teardown at line 45 is), it keeps the invariant |
| `WhenVisible.HydrateWhenVisible.RunEffect` | src/whenVisible.tsx:15-52 | the new state is exactly the effect's three-way decision applied to the old one; a cleanup is returned iff not hydrated, an observer exists and there is an element child; the invariant is kept |
| `WhenVisible.HydrateWhenVisible.OnIntersect` | src/whenVisible.tsx:27-35 | the callback changes the state exactly as the first-entry hit test dictates and keeps the invariant |
| `WhenVisible.HydrateWhenVisible.Cleanup` | src/whenVisible.tsx:20-24 | running the loop over `cleanupFns` gives exactly the state of invoking every teardown in order, and keeps the invariant |
| `WhenVisible.Render` | src/whenVisible.tsx:54-70 | hydrated renders the live children; not hydrated renders a placeholder with `suppressHydrationWarning` set and empty inner HTML, and no children |
| `WhenVisible.HydrateIdempotent` | src/whenVisible.tsx:13 | `hydrate()` always leaves the flag true, and a second call changes only the call count |
| `WhenVisible.InitialIsValid` | src/whenVisible.tsx:12-13 | a freshly mounted state satisfies the invariant and renders live exactly when it starts hydrated |
| `WhenVisible.EffectWhenHydrated` | src/whenVisible.tsx:16 | when already hydrated the effect observes nothing, calls `hydrate` zero times and returns no cleanup |
| `WhenVisible.EffectWithoutObserver` | src/whenVisible.tsx:26-50 | with no observer capability the effect calls `hydrate` once, observes nothing and returns no cleanup, so the next render is live |
| `WhenVisible.EffectWithoutChildren` | src/whenVisible.tsx:39-51 | with an observer but no element child the effect calls `hydrate` once, observes nothing and returns no cleanup |
| `WhenVisible.EffectObservesFirstChild` | src/whenVisible.tsx:39-48 | with an observer and at least one element child, exactly `children[0]` is observed, `hydrate` is not called, and the cleanup holds one teardown for that element |
| `WhenVisible.EffectTrichotomy` | src/whenVisible.tsx:15-51 | for all inputs the effect either does nothing (iff hydrated), hydrates at once (iff not hydrated and observer or child missing), or observes `children[0]` (iff a cleanup is returned) |
| `WhenVisible.HitUsesFirstEntryOnly` | src/whenVisible.tsx:28-34 | the hit test on a non-empty batch depends only on its first entry |
| `WhenVisible.MissNeverHydrates` | src/whenVisible.tsx:30-34 | an empty batch, or one whose first entry neither intersects nor has a positive ratio, leaves the state unchanged |
| `WhenVisible.IntersectHydratesIff` | src/whenVisible.tsx:30-34 | the callback calls `hydrate` once iff the batch is non-empty and its first entry intersects or has a positive ratio, and never observes or unobserves |
| `WhenVisible.RunTeardownsCalls` | src/whenVisible.tsx:20-24 | running the teardowns makes exactly one unobserve call per teardown, in order, and changes neither the flag, the call count nor the teardown list |
| `WhenVisible.RunTeardownsReleases` | src/whenVisible.tsx:44-46 | after the teardowns run none of their targets is still observed, and any other observed element stays observed |
| `WhenVisible.RunTeardownsKeepsInv` | src/whenVisible.tsx:41-46 | teardowns whose targets were observed keep the invariant, so cleanup never unobserves an element that was not observed first |
| `WhenVisible.ObserveThenCleanup` | src/whenVisible.tsx:39-48 | the observe path followed by its cleanup makes one observe and then one unobserve of the same element, with no `hydrate` call |
| `WhenVisible.StepKeepsInv` | src/whenVisible.tsx:15-52 | every effect run, delivery and cleanup keeps the invariant and only appends to the call log |
| `WhenVisible.RunKeepsInv` | src/whenVisible.tsx:15-52 | every state reachable over any trace keeps the invariant: every unobserve targets an element observed earlier, there is at most one teardown |
| `WhenVisible.StepMonotone` | src/whenVisible.tsx:33 | no single step clears `hydrated` or lowers the `hydrate` count |
| `WhenVisible.RunMonotone` | src/whenVisible.tsx:13-52 | `hydrated` is monotonic over any trace of effect runs, deliveries and cleanups |
| `WhenVisible.RenderStaysLive` | src/whenVisible.tsx:54-59 | once hydrated, the component renders its live children after any further trace |
| `WhenVisible.StepWhenHydrated` | src/whenVisible.tsx:16 | a step taken while hydrated keeps it hydrated and can only append unobserve calls |
| `WhenVisible.HydratedObservesNothing` | src/whenVisible.tsx:15-16 | once hydrated, no trace ever makes another observe call |
| `WhenVisible.VisibleScenario` | src/whenVisible.tsx:15-52 | mount with an observer and one child, deliver a visible entry, then clean up and re-run: hydrated with one `hydrate` call, the child observed and unobserved once, no cleanup held |

## Left out

- React's scheduling of effects, its dependency array, refs, JSX and the passthrough of props to the `div` (`...rest`, `defaultStyle`). These are framework plumbing. An effect re-run is an explicit `Cleanup` followed by `RunEffect`, in the order React guarantees; an unmount is `Cleanup` alone.
- Render: `{...rest}` is spread after `style` and `suppressHydrationWarning` (src/whenVisible.tsx:64-66), so a caller's props can override the style and turn the warning suppression off. `Render` always sets the flag, because it does not model `rest`.
- `useHydrationState` and `defaultStyle` come from `./utils`, which is not part of this model. `hydrate` is an idempotent setter of the flag. `hydrateCalls` counts its calls; no other side effect is assumed.
- The real `IntersectionObserver`, the DOM and `observerOptions`. The capability is a boolean and the container's element children are a sequence of element identities. Observe and unobserve are recorded calls. One `observed` slot stands for the observer of the latest effect run. Thresholds and margins are passed through untouched in the source and play no part in the decision.
- `intersectionRatio` is a `real` used only in the test `> 0`; floating-point behaviour is not modelled.
- Asynchronous delivery of observer callbacks. Each delivery is one sequential `OnIntersect` call.
- The test `IntersectionObserver ? … : null` reads a global and would throw if the global were undeclared. It is modelled as the intended test for an optional capability.
