/**
  The guard decision of a resource-protected route: what the view selector
  shows for one read of the guarding resource.
 */
module Guard {

  /** One read of the guarding resource: not yet resolved, resolved to a
      boolean, or resolved to an error of type E. */
  datatype ReadState<+E> = Pending | Ok(value: bool) | Err(error: E)

  /** What the view selector renders; a redirect carries its target path. */
  datatype Outcome = Protected | Redirect(path: string) | Error | Fallback

  /** The resolved boolean after the optional inversion. */
  function Effective(authenticated: bool, invert: bool): (c: bool)
    ensures c == (authenticated != invert)
  {
    if invert then !authenticated else authenticated
  }

  /** The decision made each time the route's view is rendered. */
  function Decide<E>(read: ReadState<E>, invert: bool, redirectPath: string): (o: Outcome)
    ensures o == Protected <==> read.Ok? && Effective(read.value, invert)
    ensures o.Redirect? <==> read.Ok? && !Effective(read.value, invert)
    ensures o.Redirect? ==> o.path == redirectPath
    ensures o == Error <==> read.Err?
    ensures o == Fallback <==> read.Pending?
  {
    match read
    case Ok(authenticated) =>
      if Effective(authenticated, invert) then Protected else Redirect(redirectPath)
    case Err(_) => Error
    case Pending => Fallback
  }

  /** The decision table written row by row, with the effective condition
      stated as "the resolved value differs from the invert flag". */
  ghost predicate TableRow<E>(read: ReadState<E>, invert: bool, redirectPath: string, o: Outcome)
  {
    || (read.Ok? && read.value != invert && o == Protected)
    || (read.Ok? && read.value == invert && o == Redirect(redirectPath))
    || (read.Err? && o == Error)
    || (read.Pending? && o == Fallback)
  }

  /** Decide picks a row of the table, and the table allows no other outcome. */
  lemma DecideIsTable<E>(read: ReadState<E>, invert: bool, redirectPath: string)
    ensures TableRow(read, invert, redirectPath, Decide(read, invert, redirectPath))
    ensures forall o :: TableRow(read, invert, redirectPath, o) ==> o == Decide(read, invert, redirectPath)
  {
  }

  /** A successful read shows the protected view exactly when the effective
      condition holds, and otherwise redirects to the captured path. */
  lemma OkDecision<E>(v: bool, invert: bool, redirectPath: string)
    ensures Decide<E>(Ok(v), invert, redirectPath) ==
            if Effective(v, invert) then Protected else Redirect(redirectPath)
    ensures Decide<E>(Ok(v), invert, redirectPath) != Error
    ensures Decide<E>(Ok(v), invert, redirectPath) != Fallback
  {
  }

  /** Any error, under either flag and any redirect path, gives the error view. */
  lemma ErrIgnoresFlagAndValue<E>(e1: E, e2: E, invert1: bool, invert2: bool, path1: string, path2: string)
    ensures Decide(Err(e1), invert1, path1) == Decide(Err(e2), invert2, path2) == Error
  {
  }

  /** A pending read gives the fallback view under either flag. */
  lemma PendingIgnoresFlag<E>(invert1: bool, invert2: bool, path1: string, path2: string)
    ensures Decide<E>(Pending, invert1, path1) == Decide<E>(Pending, invert2, path2) == Fallback
  {
  }

  /** Inverting the condition is the same as negating the resolved value;
      on a read that is not a success the flag has no effect. */
  lemma InversionSymmetry<E>(read: ReadState<E>, redirectPath: string)
    ensures read.Ok? ==>
      Decide(read, true, redirectPath) == Decide<E>(Ok(!read.value), false, redirectPath)
    ensures !read.Ok? ==>
      Decide(read, true, redirectPath) == Decide(read, false, redirectPath)
  {
  }

  /** Four sample decisions. */
  lemma Scenarios<E>(e: E, invert: bool, redirectPath: string)
    ensures Decide<E>(Ok(true), false, redirectPath) == Protected
    ensures Decide<E>(Ok(true), true, redirectPath) == Redirect(redirectPath)
    ensures Decide<E>(Pending, invert, redirectPath) == Fallback
    ensures Decide(Err(e), invert, redirectPath) == Error
  {
  }
}
