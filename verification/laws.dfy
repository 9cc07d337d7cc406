/**
  Laws of the envelope's acknowledgement: chains of payload replacements stay
  linked to the source's acknowledgement, supplier-backed acknowledgement
  invokes its supplier once per call with no caching, and acknowledging
  distinct envelopes imposes no ordering on the supplier counts.
 */
module MessageLaws {
  import opened Acks
  import opened Messages

  /**
    Acknowledging the end of a payload-replacement chain of any length runs the
    chain's source acknowledgement: same root, same outcome, same counts.
   */
  lemma {:induction false} ChainAckIsSourceAck<T>(m: Message<T>, ps: seq<T>, c: Invocations)
    ensures Root(Rewrap(m, ps).ack) == Root(m.ack)
    ensures Ack(Rewrap(m, ps), c) == Ack(m, c)
  {
    WrapKeepsRoot(m.ack, |ps|);
    SameRootSameAck(Rewrap(m, ps).ack, m.ack, c);
  }

  /**
    Acknowledging a payload-replaced derivative of a supplier-backed envelope
    invokes that supplier exactly once more and no other supplier at all.
   */
  lemma DerivedAckBumpsOnlyItsSupplier<T, R>(p: T, s: nat, q: R, c: Invocations)
    ensures var c' := Ack(WithPayload(AckableMessage(p, s), q), c).1;
            Count(c', s) == Count(c, s) + 1 &&
            forall t :: t != s ==> Count(c', t) == Count(c, t)
  {
  }

  /**
    The counts left by acknowledging two envelopes do not depend on the order
    the two are acknowledged in.
   */
  lemma AcksCommuteOnCounts<T, U>(m1: Message<T>, m2: Message<U>, c: Invocations)
    ensures Ack(m2, Ack(m1, c).1).1 == Ack(m1, Ack(m2, c).1).1
  {
  }

  /**
    Acknowledge `m` `n` times in a row. Every call runs the envelope's root
    action again: a supplier is invoked once per call and each call returns a
    fresh invocation's result; the default action succeeds every time and
    invokes nothing.
   */
  method AckRepeatedly<T>(m: Message<T>, n: nat, c: Invocations)
    returns (outs: seq<Outcome>, c': Invocations)
    ensures |outs| == n
    ensures Root(m.ack) == DefaultAck ==>
              c' == c && forall i :: 0 <= i < n ==> outs[i] == Completed
    ensures Root(m.ack).Supplied? ==>
              var s := Root(m.ack).supplier;
              && Count(c', s) == Count(c, s) + n
              && (forall t :: t != s ==> Count(c', t) == Count(c, t))
              && (forall i :: 0 <= i < n ==> outs[i] == FromSupplier(s, Count(c, s) + i))
    // distinct invocation indices: each ack is a new call, never a replayed one
    ensures Root(m.ack).Supplied? ==>
              forall i, j :: 0 <= i < j < n ==> outs[i] != outs[j]
  {
    outs, c' := [], c;
    var k := 0;
    while k < n
      invariant 0 <= k <= n
      invariant |outs| == k
      invariant Root(m.ack) == DefaultAck ==>
                  c' == c && forall i :: 0 <= i < k ==> outs[i] == Completed
      invariant Root(m.ack).Supplied? ==>
                  var s := Root(m.ack).supplier;
                  && Count(c', s) == Count(c, s) + k
                  && (forall t :: t != s ==> Count(c', t) == Count(c, t))
                  && (forall i :: 0 <= i < k ==> outs[i] == FromSupplier(s, Count(c, s) + i))
    {
      var r := Ack(m, c');
      outs, c' := outs + [r.0], r.1;
      k := k + 1;
    }
  }
}
