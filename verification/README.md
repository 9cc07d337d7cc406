# Message envelope acknowledgement model

A Dafny model of the reactive-messaging `Message<T>` envelope. An envelope pairs
a payload with an acknowledgement. There are three ways to build one:

- an envelope that does not override `ack()`. Acknowledging it returns an
  already-completed success.
- `ackableMessage(payload, supplier)`. Its `ack()` calls the supplier again on
  every invocation.
- `withPayload(r)` on an existing envelope. The new envelope carries `r`, and its
  `ack()` forwards to the original envelope's `ack()`.

The model is first-order:

- `Acks.AckAction` is `DefaultAck`, `Supplied(supplier)` or `Delegated(inner)`.
- `Messages.Message<T>` is a payload plus an `AckAction`. The `payload` field is `getPayload()`.
- A completion signal is an abstract `Acks.Outcome`. `Completed` is the default
  success. `FromSupplier(s, k)` is whatever the `k`-th call of supplier `s` produced.
- The supplier side effects are modelled as an `Invocations` map. It counts how
  often each supplier has been called. Every acknowledgement takes this map and
  returns it updated.

Files:

- `acks.dfy` (module `Acks`): the actions, delegation roots, the reference
  semantics `Fire` of a non-delegating action, and `Invoke`.
- `message.dfy` (module `Messages`): the envelope, its constructors, `Ack`,
  and `Rewrap` (a chain of `withPayload` calls).
- `laws.dfy` (module `MessageLaws`): chain, frame, commutation and repetition laws.

Java objects are immutable here as Dafny values. So `withPayload` cannot change
its receiver: `m` has the same payload and action before and after
`WithPayload(m, q)`. The derived envelope holds `m`'s action unchanged as its
delegation target.

## Model

| member | source | states |
|---|---|---|
| Messages.Plain | messaging/api/src/main/java/org/eclipse/microprofile/reactive/messaging/Message.java:41-43 | An envelope without a custom action keeps its payload. In every state, acknowledging it returns a completed success and changes no supplier count. |
| Messages.WithPayload | messaging/api/src/main/java/org/eclipse/microprofile/reactive/messaging/Message.java:51-65 | The derived envelope's payload is exactly the new one. It has the receiver's root action and one more delegation layer. In every state, acking it gives the same outcome and the same counts as acking the receiver. |
| Messages.AckableMessage | messaging/api/src/main/java/org/eclipse/microprofile/reactive/messaging/Message.java:67-79 | The payload is exactly the given one. Each ack invokes the supplier once more, yields what that fresh invocation produced, and leaves every other supplier alone. |
| Messages.Ack | messaging/api/src/main/java/org/eclipse/microprofile/reactive/messaging/Message.java:41-77 | Acking any envelope is the same as firing the root action at the end of its delegation chain. |
| Messages.Rewrap | messaging/api/src/main/java/org/eclipse/microprofile/reactive/messaging/Message.java:51-58 | After a chain of payload replacements, the payload is the last one given, and the action is the source's action wrapped in one delegation layer per step. An empty chain returns the envelope itself. |
| MessageLaws.ChainAckIsSourceAck | messaging/api/src/main/java/org/eclipse/microprofile/reactive/messaging/Message.java:51-65 | For any chain length and any state, acking the end of a `withPayload` chain has the source's root action, outcome and counts, because the chain only adds delegation layers (`Acks.WrapKeepsRoot`). |
| MessageLaws.DerivedAckBumpsOnlyItsSupplier | messaging/api/src/main/java/org/eclipse/microprofile/reactive/messaging/Message.java:61-77 | Acking a `withPayload` derivative of an `ackableMessage` raises that supplier's count by exactly one. No other count changes. |
| MessageLaws.AcksCommuteOnCounts | messaging/api/src/main/java/org/eclipse/microprofile/reactive/messaging/Message.java:41-77 | Acking two envelopes in either order leaves the same supplier counts, so distinct envelopes impose no ordering on each other. |
| MessageLaws.AckRepeatedly | messaging/api/src/main/java/org/eclipse/microprofile/reactive/messaging/Message.java:74-77 | N acks of a supplier-backed envelope invoke its supplier exactly N times. The i-th ack is the supplier's i-th invocation and yields what that invocation produced; the envelope caches nothing, so no two acks share an invocation. N acks of a default envelope return N completed successes and change no count. |
| Acks.Invoke | messaging/api/src/main/java/org/eclipse/microprofile/reactive/messaging/Message.java:61-77 | Invoking any action either returns a completed success with all counts unchanged, or invokes exactly one supplier once and returns that invocation's result. |
| Acks.InvokeResolvesToRoot | messaging/api/src/main/java/org/eclipse/microprofile/reactive/messaging/Message.java:61-63 | Delegation is transparent: invoking an action equals firing its root. |
| Acks.SameRootSameAck | messaging/api/src/main/java/org/eclipse/microprofile/reactive/messaging/Message.java:61-63 | Two actions with the same root give the same outcome and the same counts in every state. This covers chains whose payload type changes at every step. |
| Acks.WrapKeepsRoot | messaging/api/src/main/java/org/eclipse/microprofile/reactive/messaging/Message.java:51-65 | Adding any number of delegation layers leaves the root action unchanged. |
| Acks.Root | messaging/api/src/main/java/org/eclipse/microprofile/reactive/messaging/Message.java:61-63 | Following delegation always ends at a non-delegating action. A non-delegating action is its own root. |

## Left out

- The asynchronous `CompletionStage`/`CompletableFuture` machinery. An ack result is an abstract `Outcome`, not a future. A supplier whose stage later fails is one of its abstract results.
- What a supplier does beyond being invoked, such as committing an offset. A supplier is an opaque identifier, and only its invocation count is observed.
- Other implementations of the `Message` interface that override `ack()` or `withPayload` themselves. An overriding `ack()` that only runs its own action behaves like a `Supplied` action. One that forwards to another envelope's `ack()` is not modelled, and neither is an overridden `withPayload`, for which the delegation law need not hold.
- Messages.Rewrap: the chain is over one payload type. Chains whose payload type changes at each step are covered one step at a time by the `WithPayload` contract and `Acks.SameRootSameAck`.
- The stage graph, the engine and its four build operations, and the backpressure/cancellation protocol. Their source is not part of this model.
- The TCK deployment listener, the Arquillian/TestNG lifecycle listener, the test factory and the container test runner. These are test-harness glue (thread-local state, reflection, container deployment) and contain no envelope logic.
- Acks.Invoke, Messages.AckableMessage, MessageLaws.DerivedAckBumpsOnlyItsSupplier: the frame ("exactly one supplier", "no other count changes") counts only the envelope's own supplier call. A supplier is an atom here. A supplier that itself acknowledges other envelopes, such as `() -> incoming.ack()`, changes their suppliers' counts too, and that is not modelled.
- Acks.Outcome: `FromSupplier(s, k)` stands for whatever the `k`-th call of supplier `s` produced, a completion stage or a thrown exception. The exception would leave `ack()` and every `withPayload` layer unchanged. A null supplier, whose `ack()` throws a null-pointer exception, is not modelled. Neither is the Java call-stack depth, so MessageLaws.ChainAckIsSourceAck holds for chains of any length, while a very long Java chain would overflow the stack.
