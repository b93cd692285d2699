# ResourceProtectedRoute in Dafny

A model of the guarded route component for the Leptos router. The route
shows one of four things, depending on an asynchronous boolean resource:

- the protected view when the resource resolved to a value whose effective
  condition holds (the value, or its negation when `invert_resource_condition`
  is set);
- a redirect to `redirect_path` when it resolved and the condition fails;
- the error view when the resource resolved to an error;
- the fallback view while it is pending.

At construction the component asks the resource to refetch once. It then
registers a route definition. The route keeps only the route definitions
among its children, in their order. Its id comes from a thread-local counter
that starts at 0 and is incremented before each use.

Modules:

- `Guard` (guard.dfy): the read state, the outcome and the pure decision
  `Decide`. An independent row-by-row statement of the decision table is
  `TableRow`, and lemmas relate the two.
- `Route` (route.dfy): route nodes, the child filter `Routes` and its
  order-preservation lemmas, and the `RouteBuilder` class. That class holds
  the counter and a ghost log of the ids it has handed out. Its invariant
  says the log is `1, 2, …, counter`.
- `ProtectedRoute` (protected_route.dfy): the resource as a class with a
  ghost refetch count. It also holds the view selector `Render` and the
  component's constructor `ResourceProtectedRoute`.

The children provider is modelled as the value it produced,
`Option<seq<Child<V>>>`. A route nested in the children is therefore built
before `DefineRoute` runs, as in the source, where the provider runs before
the id is taken. Nested routes thus get smaller ids than their parent. The
accepted methods are a `&'static [Method]` slice in the code, so the model
keeps them as a sequence, not a set.

## Model

| member | source | states |
|---|---|---|
| Guard.Effective | resource_protected_route.rs:88-92 | the effective condition holds exactly when the resolved value differs from the invert flag |
| Guard.Decide | resource_protected_route.rs:85-102 | protected view iff the read succeeded with a true effective condition; redirect iff it succeeded with a false one, and the redirect carries the captured path; error view iff the read failed; fallback iff pending |
| Guard.DecideIsTable | resource_protected_route.rs:85-102 | the decision satisfies a row of the decision table written with `value != invert` as the condition, and no other outcome satisfies any row (total and deterministic) |
| Guard.OkDecision | resource_protected_route.rs:86-97 | a successful read gives the protected view when the effective condition holds and otherwise the redirect to the captured path, never the error or fallback view |
| Guard.ErrIgnoresFlagAndValue | resource_protected_route.rs:98-99 | any two error reads give the error view, whatever the error values, flags and redirect paths |
| Guard.PendingIgnoresFlag | resource_protected_route.rs:100-101 | a pending read gives the fallback view under either flag |
| Guard.InversionSymmetry | resource_protected_route.rs:86-102 | deciding `Ok(v)` with inversion equals deciding `Ok(!v)` without it; for a pending or failed read the flag makes no difference |
| Guard.Scenarios | resource_protected_route.rs:86-101 | `Ok(true)` without inversion is protected; `Ok(true)` with inversion redirects to the configured path; pending is fallback and any error is the error view, under either flag |
| Route.Routes | resource_protected_route.rs:126-132 | the number of kept children is exactly the number of route definitions in the input (so no more than the input); each is a route definition of the input, and each route definition of the input is kept |
| Route.ChildrenOf | resource_protected_route.rs:121-134 | an absent provider gives no children; otherwise every kept child is a route definition the provider yielded, there are exactly as many kept children as route definitions it yielded, every route definition it yielded is kept at the position equal to the number of route definitions before it, and those positions follow the provider's order, so the result is those route definitions and nothing else |
| Route.RoutesAppend | resource_protected_route.rs:126-132 | filtering a concatenation is the concatenation of the filtered parts |
| Route.RoutesAt | resource_protected_route.rs:126-132 | the route definition at input index i is kept, at the position equal to the number of route definitions before it |
| Route.RoutesKeepOrder | resource_protected_route.rs:126-132 | of two route definitions at input indices i < j, both are kept, at positions given by the number of route definitions before each, and the earlier one's position is strictly smaller |
| Route.RoutesPositions | resource_protected_route.rs:126-132 | for a whole input: every route definition is kept at its position, and the positions of any two follow their input order |
| Route.MixedChildren | resource_protected_route.rs:121-134 | two route definitions mixed with three other children give exactly those two children, in their order |
| Route.Ids | resource_protected_route.rs:136-140 | after n calls the counter has handed out n ids, the k-th being k + 1 |
| Route.IdsIncreasing | resource_protected_route.rs:136-140 | handed-out ids are at least 1 and strictly increase in call order, so they are pairwise distinct |
| Route.RouteBuilder.constructor | resource_protected_route.rs:5-7 | the counter starts at 0 with no id handed out |
| Route.RouteBuilder.DefineRoute | resource_protected_route.rs:113-150 | the counter grows by exactly 1; the node's id is the old counter plus 1, larger than every id handed out before; the node carries the path, the filtered children, the view, the SSR mode and the methods unchanged; the id log invariant is kept |
| ProtectedRoute.Resource.Refetch | resource_protected_route.rs:77 | a refetch adds exactly one to the resource's refetch count and changes nothing else |
| ProtectedRoute.Render | resource_protected_route.rs:83-103 | one run of the view selector returns the decision for the resource's current read state, the invert flag and the captured path; it modifies nothing, so it never refetches and repeated runs on an unchanged read state agree |
| ProtectedRoute.ResourceProtectedRoute | resource_protected_route.rs:74-107 | construction refetches the resource exactly once and leaves its read state alone; it takes exactly one id from the counter and returns a node whose view selector captures the resource, the flag and the redirect path |

## Left out

- Rendering (`view!`, `into_view`, `Scope`, the boxed view closures) and the navigation done by the `Redirect` component: external framework code. The model keeps only the `Outcome` tag.
- Reactive re-invocation of the view selector when the resource changes state: framework scheduling. `Render` models a single run, and the frame of `Render` states that runs do not touch the resource.
- What a refetch eventually does to the resource's state: the fetch is external. `Refetch` only counts the request, and the read state changes from outside the model.
- The `tracing::instrument` attributes: logging only.
- The runtime type test `as_transparent`/`downcast_ref`: replaced by the `Child` tag.
- A failure or panic inside the children provider: external code, which aborts construction in the source.
- `thread_local!` and concurrent construction: the counter is one field of one `RouteBuilder` object.
- Route.RouteBuilder.DefineRoute: the counter is an unbounded `nat`, so the overflow of `id.get() + 1` after `usize::MAX` routes (a panic in a debug build, a wrap to 0 in a release build) is not modelled.
- The view selector's type: the source erases it behind `Rc<dyn Fn>`, while `RouteNode<V>` is generic in it. The children of a guarded route are therefore nodes whose views are guard views as well.
- `SsrMode` and `Method` are passed through unchanged. They are plain enumerations here. The component's property defaults (invert `false`, `OutOfOrder`, `[Get]`, no children) are default parameter values of `ResourceProtectedRoute`.
- The `P: Display` path parameters: modelled as strings already, so `to_string` is the identity.
