/**
  The message envelope: a payload paired with an acknowledgement action.

  `payload` is the envelope's accessor for its payload; `Ack` acknowledges it.
  Envelopes are immutable values, so deriving one envelope from another never
  changes the one it was derived from.
 */
module Messages {
  import opened Acks

  datatype Message<T> = Message(payload: T, ack: AckAction)

  /** An envelope that does not override acknowledgement. */
  function Plain<T>(payload: T): (m: Message<T>)
    ensures m.payload == payload
    ensures forall c :: Ack(m, c) == (Completed, c)
  {
    Message(payload, DefaultAck)
  }

  /**
    Acknowledge an envelope: run its action against the supplier invocation
    counts and return the completion signal with the updated counts.
   */
  function Ack<T>(m: Message<T>, c: Invocations): (r: (Outcome, Invocations))
    ensures r == Fire(Root(m.ack), c)
  {
    InvokeResolvesToRoot(m.ack, c);
    Invoke(m.ack, c)
  }

  /**
    A new envelope carrying `payload` whose acknowledgement is that of `m`:
    acknowledging it has the same outcome and the same effect on every
    supplier as acknowledging `m`, in every state.
   */
  function WithPayload<T, R>(m: Message<T>, payload: R): (d: Message<R>)
    ensures d.payload == payload
    ensures Root(d.ack) == Root(m.ack)
    ensures Depth(d.ack) == Depth(m.ack) + 1
    ensures forall c :: Ack(d, c) == Ack(m, c)
  {
    Message(payload, Delegated(m.ack))
  }

  /**
    An envelope whose acknowledgement invokes supplier `supplier` afresh every
    time and returns that invocation's result.
   */
  function AckableMessage<T>(payload: T, supplier: nat): (m: Message<T>)
    ensures m.payload == payload
    ensures forall c :: Ack(m, c) == (FromSupplier(supplier, Count(c, supplier)), Bump(c, supplier))
  {
    Message(payload, Supplied(supplier))
  }

  /** `m.withPayload(ps[0]).withPayload(ps[1])...` over the whole of `ps`. */
  function Rewrap<T>(m: Message<T>, ps: seq<T>): (r: Message<T>)
    ensures |ps| > 0 ==> r.payload == ps[|ps| - 1]
    ensures |ps| == 0 ==> r == m
    ensures Depth(r.ack) == Depth(m.ack) + |ps|
    ensures r.ack == Wrap(m.ack, |ps|)
    decreases |ps|
  {
    if |ps| == 0 then m else WithPayload(Rewrap(m, ps[..|ps| - 1]), ps[|ps| - 1])
  }
}
