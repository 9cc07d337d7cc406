/**
  Acknowledgement actions of a message envelope and what invoking them does.

  An acknowledgement is modelled first-order: the action a message carries is
  either the built-in default (an already-completed success), a custom action
  backed by a supplier (identified by a number), or a delegation to another
  envelope's action. Suppliers are opaque; what the model observes of them is
  how many times each has been invoked, kept in an `Invocations` map that every
  acknowledgement threads through.
 */
module Acks {

  /** The completion signal an acknowledgement returns. */
  datatype Outcome =
    | Completed                            // an already-completed success
    | FromSupplier(supplier: nat, call: nat) // whatever the `call`-th invocation (from 0) of `supplier` produced

  /** The acknowledgement behaviour an envelope carries. */
  datatype AckAction =
    | DefaultAck                // the interface's default: succeed at once
    | Supplied(supplier: nat)   // invoke the supplier afresh on every acknowledgement
    | Delegated(inner: AckAction) // acknowledge by acknowledging another envelope

  /** How many times each supplier has been invoked so far (absent means never). */
  type Invocations = map<nat, nat>

  function Count(c: Invocations, s: nat): nat
  {
    if s in c then c[s] else 0
  }

  /** One more invocation of supplier `s`. */
  function Bump(c: Invocations, s: nat): (c': Invocations)
    ensures Count(c', s) == Count(c, s) + 1
    ensures forall t :: t != s ==> Count(c', t) == Count(c, t)
  {
    c[s := Count(c, s) + 1]
  }

  /** Number of delegation steps before the action that actually runs. */
  function Depth(a: AckAction): nat
  {
    match a
    case Delegated(inner) => Depth(inner) + 1
    case _ => 0
  }

  /** The action that ends up running when `a` is invoked. */
  function Root(a: AckAction): (r: AckAction)
    ensures !r.Delegated?
    ensures !a.Delegated? ==> r == a
  {
    match a
    case Delegated(inner) => Root(inner)
    case _ => a
  }

  /** `a` wrapped in `k` delegation layers. */
  function Wrap(a: AckAction, k: nat): (w: AckAction)
    ensures Depth(w) == Depth(a) + k
  {
    if k == 0 then a else Delegated(Wrap(a, k - 1))
  }

  /**
    Reference semantics of a non-delegating action: the default succeeds and
    invokes nothing; a supplied action invokes its supplier exactly once and
    returns that invocation's result.
   */
  function Fire(root: AckAction, c: Invocations): (Outcome, Invocations)
    requires !root.Delegated?
  {
    match root
    case DefaultAck => (Completed, c)
    case Supplied(s) => (FromSupplier(s, Count(c, s)), Bump(c, s))
  }

  /**
    Invoking an action: delegation forwards to the inner action every time
    and adds no behaviour of its own.
   */
  function Invoke(a: AckAction, c: Invocations): (r: (Outcome, Invocations))
    ensures r.0.Completed? <==> r.1 == c
    ensures r.0.FromSupplier? ==>
              r.0.call == Count(c, r.0.supplier) && r.1 == Bump(c, r.0.supplier)
  {
    match a
    case DefaultAck => (Completed, c)
    case Supplied(s) => (FromSupplier(s, Count(c, s)), Bump(c, s))
    case Delegated(inner) => Invoke(inner, c)
  }

  /** Invoking any action is firing its root: the delegation chain is transparent. */
  lemma {:induction false} InvokeResolvesToRoot(a: AckAction, c: Invocations)
    ensures Invoke(a, c) == Fire(Root(a), c)
  {
    match a
    case DefaultAck =>
    case Supplied(s) =>
    case Delegated(inner) => InvokeResolvesToRoot(inner, c);
  }

  /** Two actions with the same root cannot be told apart by invoking them. */
  lemma {:induction false} SameRootSameAck(a: AckAction, b: AckAction, c: Invocations)
    requires Root(a) == Root(b)
    ensures Invoke(a, c) == Invoke(b, c)
  {
    InvokeResolvesToRoot(a, c);
    InvokeResolvesToRoot(b, c);
  }

  /** However many delegation layers are added, the root does not move. */
  lemma {:induction false} WrapKeepsRoot(a: AckAction, k: nat)
    ensures Root(Wrap(a, k)) == Root(a)
  {
    if k > 0 {
      WrapKeepsRoot(a, k - 1);
    }
  }
}
