/**
  Building a route node: collecting the nested route definitions among the
  children and taking the next id from the route counter.
 */
module Route {

  datatype Option<+T> = None | Some(value: T)

  /** The server-side rendering mode a route prefers; passed through unchanged. */
  datatype SsrMode = OutOfOrder | InOrder | Async | PartiallyBlocked

  /** An HTTP method a route accepts; passed through unchanged. */
  datatype Method = Get | Post | Put | Delete | Patch

  /** The property defaults of the guarded route component. */
  const DefaultSsrMode: SsrMode := OutOfOrder
  const DefaultMethods: seq<Method> := [Get]

  /** A registered route: its id, path, nested routes, view selector of type
      V, rendering mode and accepted methods. */
  datatype RouteNode<V> = RouteNode(
    id: nat,
    path: string,
    children: seq<RouteNode<V>>,
    view: V,
    ssrMode: SsrMode,
    methods: seq<Method>)

  /** A child produced by the children provider: a route definition, or any
      other view content. */
  datatype Child<V> = RouteChild(node: RouteNode<V>) | OtherChild

  /** The number of route definitions among cs. */
  ghost function CountRoutes<V>(cs: seq<Child<V>>): nat
  {
    if cs == [] then 0 else (if cs[0].RouteChild? then 1 else 0) + CountRoutes(cs[1..])
  }

  /** The route definitions among cs, in their order. */
  function Routes<V>(cs: seq<Child<V>>): (r: seq<RouteNode<V>>)
    ensures |r| == CountRoutes(cs) <= |cs|
    ensures forall k :: 0 <= k < |r| ==> RouteChild(r[k]) in cs
    ensures forall i :: 0 <= i < |cs| && cs[i].RouteChild? ==> cs[i].node in r
  {
    if cs == [] then []
    else
      var rest := Routes(cs[1..]);
      assert cs == [cs[0]] + cs[1..];
      match cs[0]
      case RouteChild(n) => [n] + rest
      case OtherChild => rest
  }

  /** The children of a new node: none without a provider, otherwise the
      route definitions the provider yields. */
  function ChildrenOf<V>(provider: Option<seq<Child<V>>>): (r: seq<RouteNode<V>>)
    ensures provider.None? ==> r == []
    ensures provider.Some? ==> |r| == CountRoutes(provider.value) <= |provider.value|
    ensures provider.Some? ==> forall k :: 0 <= k < |r| ==> RouteChild(r[k]) in provider.value
    ensures provider.Some? ==> forall i :: 0 <= i < |provider.value| && provider.value[i].RouteChild? ==>
      |Routes(provider.value[..i])| < |r| && r[|Routes(provider.value[..i])|] == provider.value[i].node
    ensures provider.Some? ==> forall i, j ::
      (0 <= i < j < |provider.value| && provider.value[i].RouteChild? && provider.value[j].RouteChild?) ==>
      |Routes(provider.value[..i])| < |Routes(provider.value[..j])|
  {
    match provider
    case None => []
    case Some(cs) => RoutesPositions(cs); Routes(cs)
  }

  /** Filtering distributes over concatenation. */
  lemma {:induction false} RoutesAppend<V>(a: seq<Child<V>>, b: seq<Child<V>>)
    ensures Routes(a + b) == Routes(a) + Routes(b)
  {
    if a == [] {
      assert a + b == b;
    } else {
      assert (a + b)[1..] == a[1..] + b;
      RoutesAppend(a[1..], b);
    }
  }

  /** The route child at index i lands at the position given by the number
      of route children before it. */
  lemma {:induction false} RoutesAt<V>(cs: seq<Child<V>>, i: nat)
    requires i < |cs| && cs[i].RouteChild?
    ensures |Routes(cs[..i])| < |Routes(cs)|
    ensures Routes(cs)[|Routes(cs[..i])|] == cs[i].node
  {
    assert cs == cs[..i] + ([cs[i]] + cs[i + 1..]);
    RoutesAppend(cs[..i], [cs[i]] + cs[i + 1..]);
    RoutesAppend([cs[i]], cs[i + 1..]);
    assert Routes([cs[i]]) == [cs[i].node] by {
      assert [cs[i]][1..] == [];
    }
  }

  /** Route children keep their relative order: an earlier one lands at a
      strictly smaller position. */
  lemma {:induction false} RoutesKeepOrder<V>(cs: seq<Child<V>>, i: nat, j: nat)
    requires i < j < |cs| && cs[i].RouteChild? && cs[j].RouteChild?
    ensures |Routes(cs[..i])| < |Routes(cs[..j])| < |Routes(cs)|
    ensures Routes(cs)[|Routes(cs[..i])|] == cs[i].node
    ensures Routes(cs)[|Routes(cs[..j])|] == cs[j].node
  {
    assert cs[..j] == cs[..i] + cs[i..j];
    RoutesAppend(cs[..i], cs[i..j]);
    RoutesAt(cs[i..j], 0);
    RoutesAt(cs, i);
    RoutesAt(cs, j);
  }

  /** Every route child is kept at its position, and positions follow the
      input order. */
  lemma RoutesPositions<V>(cs: seq<Child<V>>)
    ensures forall i :: 0 <= i < |cs| && cs[i].RouteChild? ==>
      |Routes(cs[..i])| < |Routes(cs)| && Routes(cs)[|Routes(cs[..i])|] == cs[i].node
    ensures forall i, j :: 0 <= i < j < |cs| && cs[i].RouteChild? && cs[j].RouteChild? ==>
      |Routes(cs[..i])| < |Routes(cs[..j])|
  {
    forall i | 0 <= i < |cs| && cs[i].RouteChild?
      ensures |Routes(cs[..i])| < |Routes(cs)| && Routes(cs)[|Routes(cs[..i])|] == cs[i].node
    {
      RoutesAt(cs, i);
    }
    forall i, j | 0 <= i < j < |cs| && cs[i].RouteChild? && cs[j].RouteChild?
      ensures |Routes(cs[..i])| < |Routes(cs[..j])|
    {
      RoutesKeepOrder(cs, i, j);
    }
  }

  /** Two route definitions among three other children give a node with
      exactly those two children, in order. */
  lemma MixedChildren<V>(a: RouteNode<V>, b: RouteNode<V>)
    ensures ChildrenOf(Some([OtherChild, RouteChild(a), OtherChild, OtherChild, RouteChild(b)])) == [a, b]
  {
    var s5: seq<Child<V>> := [OtherChild, RouteChild(a), OtherChild, OtherChild, RouteChild(b)];
    var s4: seq<Child<V>> := [RouteChild(a), OtherChild, OtherChild, RouteChild(b)];
    var s3: seq<Child<V>> := [OtherChild, OtherChild, RouteChild(b)];
    var s2: seq<Child<V>> := [OtherChild, RouteChild(b)];
    var s1: seq<Child<V>> := [RouteChild(b)];
    assert s5[1..] == s4 && s4[1..] == s3 && s3[1..] == s2 && s2[1..] == s1 && s1[1..] == [];
    assert Routes(s1) == [b];
    assert Routes(s3) == Routes(s2) == [b];
    assert Routes(s5) == Routes(s4) == [a, b];
  }

  /** The ids handed out by a counter that has been advanced n times. */
  function Ids(n: nat): (s: seq<nat>)
    ensures |s| == n
    ensures forall k :: 0 <= k < n ==> s[k] == k + 1
  {
    if n == 0 then [] else Ids(n - 1) + [n]
  }

  /** Ids are positive, strictly increasing in call order, hence pairwise distinct. */
  lemma IdsIncreasing(n: nat)
    ensures forall k :: 0 <= k < n ==> Ids(n)[k] >= 1
    ensures forall i, j :: 0 <= i < j < n ==> Ids(n)[i] < Ids(n)[j]
  {
  }

  /** The route counter together with the log of ids it has handed out. */
  class RouteBuilder {
    var counter: nat
    ghost var issued: seq<nat>

    ghost predicate Valid()
      reads this
    {
      issued == Ids(counter)
    }

    constructor ()
      ensures Valid() && counter == 0 && issued == []
    {
      counter := 0;
      issued := [];
    }

    /** Builds a route node from the children the provider produced, taking
        the next id from the counter. */
    method DefineRoute<V>(children: Option<seq<Child<V>>>, path: string, view: V,
                          ssrMode: SsrMode, methods: seq<Method>)
      returns (node: RouteNode<V>)
      requires Valid()
      modifies this
      ensures Valid()
      ensures counter == old(counter) + 1
      ensures issued == old(issued) + [node.id]
      ensures forall k :: 0 <= k < |old(issued)| ==> old(issued)[k] < node.id
      ensures node == RouteNode(old(counter) + 1, path, ChildrenOf(children), view, ssrMode, methods)
    {
      var kept := ChildrenOf(children);
      var next := counter + 1;
      counter := next;
      issued := issued + [next];
      node := RouteNode(next, path, kept, view, ssrMode, methods);
    }
  }
}
