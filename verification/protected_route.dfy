/**
  The resource-protected route component: refetches its resource once,
  then registers a route whose view selector runs the guard decision.
 */
module ProtectedRoute {
  import opened Guard
  import opened Route

  /** The guarding resource as this component sees it: its current read
      state, and a count of the refetches asked of it. */
  class Resource<E> {
    var state: ReadState<E>
    ghost var refetches: nat

    constructor (initial: ReadState<E>)
      ensures state == initial && refetches == 0
    {
      state := initial;
      refetches := 0;
    }

    /** Asks for a fresh fetch; the new result arrives later, from outside. */
    method Refetch()
      modifies this`refetches
      ensures refetches == old(refetches) + 1
    {
      refetches := refetches + 1;
    }
  }

  /** What the view selector of a guarded route captures: the resource, the
      invert flag and the redirect path as it was at construction. */
  datatype GuardView<E> = GuardView(resource: Resource<E>, invert: bool, redirectPath: string)

  /** One run of the view selector: reads the resource and decides. It
      modifies nothing, so no run refetches, and two runs on the same read
      state give the same outcome. */
  method Render<E>(g: GuardView<E>) returns (o: Outcome)
    ensures o == Decide(g.resource.state, g.invert, g.redirectPath)
  {
    var read := g.resource.state;
    match read
    case Ok(authenticated) =>
      var condition := if g.invert then !authenticated else authenticated;
      if condition {
        o := Protected;
      } else {
        o := Redirect(g.redirectPath);
      }
    case Err(_) =>
      o := Error;
    case Pending =>
      o := Fallback;
  }

  /** Constructs a guarded route: one refetch of the resource, then a route
      node whose view selector captures the resource, flag and redirect path. */
  method ResourceProtectedRoute<E>(builder: RouteBuilder, path: string, redirectPath: string,
                                   resource: Resource<E>, invert: bool := false,
                                   ssr: SsrMode := DefaultSsrMode, methods: seq<Method> := DefaultMethods,
                                   children: Option<seq<Child<GuardView<E>>>> := None)
    returns (node: RouteNode<GuardView<E>>)
    requires builder.Valid()
    modifies builder, resource
    ensures builder.Valid()
    ensures builder.counter == old(builder.counter) + 1
    ensures builder.issued == old(builder.issued) + [node.id]
    ensures resource.refetches == old(resource.refetches) + 1
    ensures resource.state == old(resource.state)
    ensures node == RouteNode(old(builder.counter) + 1, path, ChildrenOf(children),
                              GuardView(resource, invert, redirectPath), ssr, methods)
  {
    var captured := redirectPath;
    resource.Refetch();
    node := builder.DefineRoute(children, path, GuardView(resource, invert, captured), ssr, methods);
  }
}
