# libot client session, modelled in Dafny

This project models the client side of libot's operational-transformation
session: the `ot_client` record of `client.c` and every function that acts on
it. A client keeps one op that has been sent and not yet acknowledged
(`anticipated`). It also keeps the local edits made since the last send
(`buffer`), a flag saying an acknowledgment is pending (`ack_required`) and a
lazily created document. Two flags (`buffer_needs_free` and
`anticipated_needs_free`) say whether a slot owns its op or borrows it from the
document.

Files:

- `ot_library.dfy` (module `OtLibrary`) holds what the session uses but does
  not define: `ot_op`, `ot_err`, `uint32_t`, and the primitives `ot_compose`,
  `ot_xform`, `ot_encode`, `ot_decode` and `ot_doc_append`. The primitives are
  passed around as a `Library` value of function fields. Nothing is assumed
  about them, except where a lemma says so: `XformKeepsPresence` states that a
  transform returns a first operand exactly when it was given one.
- `client_model.dfy` (module `ClientModel`) gives each C function as a pure
  function from one `Session` to the next. A `Session` is the fields of
  `ot_client` plus two traces: `outbox`, the messages handed to the send
  callback, and `released`, the ops handed to `ot_free_op`. The ownership flags
  are reasoned about through the `released` trace rather than through a heap.
- `client_session.dfy` (module `ClientSession`) is the `ot_client` record as a
  class. Its fields are updated in place by one method per C function, and
  each method is proved to reach the state the matching `ClientModel` function
  computes.
- `client_runs.dfy` (module `ClientRuns`) states what holds over any sequence
  of `ot_client_apply` and `ot_client_receive` calls. It also holds short
  runs that pin down how the code as written treats its buffer.

## Model

The C functions `free_anticipated`, `free_buffer`, `ot_new_client`,
`ot_client_open`, `ot_free_client` and `fire_op_event` are given by the
`ClientModel` functions `FreeAnticipated`, `FreeBuffer`, `NewSession`, `Open`
and `FreeClient` and by the method `FireOpEvent`. These are plain definitions
with no contract of their own. They are covered by the rows of the class
methods that are proved equal to them.

| member | source | states |
|---|---|---|
| `ClientSession.Client.constructor` | client.c:70-83 | a new client has no buffer, no anticipated op and no document, no acknowledgment pending, both ownership flags clear, the given id, and satisfies `Inv` |
| `ClientSession.Client.FreeAnticipated` | client.c:3-8 | an owned anticipated op is released and the flag cleared; the pointer itself is left in place |
| `ClientSession.Client.FreeBuffer` | client.c:10-16 | only an owned buffer is released and set to NULL; a borrowed buffer stays |
| `ClientSession.Client.BufferOp` | client.c:18-47 | the object's new state and error code are those of `ClientModel.BufferOp` |
| `ClientSession.Client.SendBuffer` | client.c:49-63 | the object's new state is that of `ClientModel.SendBuffer` |
| `ClientSession.Client.Free` | client.c:85-94 | teardown releases exactly the slots marked as owned and leaves both flags clear |
| `ClientSession.Client.Open` | client.c:96 | the document pointer is replaced and nothing else changes |
| `ClientSession.Client.Receive` | client.c:98-129 | the object's new state is that of `ClientModel.Receive`; with a well-behaved transform, `Inv` is preserved |
| `ClientSession.Client.Apply` | client.c:131-152 | the object's new state and result are those of `ClientModel.Apply`, and `Inv` is preserved |
| `ClientModel.BufferOp` | client.c:18-47 | it fails (`OT_ERR_BUFFER_FAILED`, nothing changed) exactly when a buffer exists and does not compose with the op; an empty buffer borrows the op itself; otherwise the buffer becomes the composition and is owned; the old buffer is released only if it was owned; no other field changes |
| `ClientModel.SendBuffer` | client.c:49-63 | with no buffer nothing happens; otherwise exactly one message, the encoded buffer, is sent, an acknowledgment becomes pending, an owned buffer is released and cleared while a borrowed one stays, and anticipated then aliases what is left in the buffer, marked as not owned |
| `ClientModel.Receive` | client.c:98-129 | at most one message is sent; an acknowledgment releases the decoded op, clears `ack_required` and flushes the buffer as `SendBuffer` does, so a present buffer is sent as one message, the document is left alone and an acknowledgment is pending again iff something was buffered; a foreign op sends nothing and keeps `ack_required`, makes anticipated `fst(xform(anticipated, op))` owned, makes the buffer `fst(xform(buffer, snd(first xform)))` with its flag unchanged, releases, in order, the anticipated op if it was owned, the old buffer even when borrowed, and the transformed remote op `snd(first xform)`, and offers exactly `snd` of the second transform to the (lazily created) document |
| `ClientModel.Apply` | client.c:131-152 | the document always exists afterwards and gains the op exactly when it accepts it; a rejected op returns the document's error with nothing else changed; on any error nothing but the document changes (nothing is sent or released, and the slots, their ownership flags and `ack_required` are unchanged); with an acknowledgment pending nothing is sent; otherwise an accepted op leads to exactly one send and an acknowledgment pending; after an accepted append the call succeeds exactly when the op can be merged into the buffer and otherwise returns `OT_ERR_BUFFER_FAILED`; on success the state is the buffer as `BufferOp` leaves it, flushed by `SendBuffer` when no acknowledgment was pending; from an idle session satisfying `Inv` the message sent is the encoded op itself and it becomes the anticipated op |
| `ClientModel.NewSessionInv` | client.c:70-83 | a new client satisfies `Inv` |
| `ClientModel.ApplyKeepsInv` | client.c:131-152 | a local edit preserves `Inv`: with no acknowledgment pending the buffer is empty, and a buffer marked as owned is present |
| `ClientModel.ReceiveKeepsInv` | client.c:98-129 | with a transform that keeps presence, a server message preserves `Inv` |
| `ClientRuns.StepKeepsInv` | client.c:98-152 | every call into the session preserves `Inv` |
| `ClientRuns.RunKeepsInv` | client.c:98-152 | after any sequence of local edits and server messages starting from `Inv`, `Inv` still holds |
| `ClientRuns.RunOnlyExtends` | client.c:98-152 | over any run the client id never changes, sends and releases are only added, and an existing document log is only extended |
| `ClientRuns.StepBoundsSends` | client.c:98-152 | one call only appends to the messages sent, at most one of them, and only by using up the idle state or an acknowledgment it carries |
| `ClientRuns.RunBoundsSends` | client.c:98-152 | over any run, messages sent are at most the acknowledgments received plus one when nothing was pending at the start: one op in flight per acknowledgment |
| `ClientRuns.FirstEditStaysBuffered` | client.c:57-62 | a new client's first accepted edit is sent, yet it stays in the buffer, borrowed, with anticipated aliasing it |
| `ClientRuns.AckResendsFirstEdit` | client.c:18-63 | after edits `op1` and `op2` and an acknowledgment, the messages sent are `encode(op1)` and `encode(compose(op1, op2))`, so `op1` is sent twice; an acknowledgment is then pending with no anticipated op |
| `ClientRuns.EveryAckResendsBorrowedBuffer` | client.c:49-63 | with a borrowed buffer, `n` acknowledgments send that buffer's encoding `n` times; the buffer stays borrowed and in place, anticipated aliases it and an acknowledgment is pending again |
| `ClientRuns.SoleEditResentOnEveryAck` | client.c:109-110 | a new client's single edit, followed by `n` acknowledgments, has been sent `n + 1` times and is still in the buffer |
| `ClientRuns.ForeignOpReleasesLoggedEdit` | client.c:120-122 | a foreign op arriving after the first edit releases that edit while the document log still holds it |
| `ClientRuns.DuplicateAckChangesNothing` | client.c:103-111 | an acknowledgment with nothing buffered and nothing pending changes no field; it only releases the decoded message |

## Code versus design

The intended protocol and `client.c` differ in these places. The model follows
the code:

- A flush is meant to empty the buffer. `free_buffer` clears only an owned
  buffer, so after the first edit the sent op stays in the buffer. Every later
  acknowledgment flushes it again, so a single edit is sent once per
  acknowledgment for as long as the server keeps acknowledging
  (`EveryAckResendsBorrowedBuffer`, `SoleEditResentOnEveryAck`). A second edit
  is composed with the first, and the next flush sends the first edit again
  inside the composition (`AckResendsFirstEdit`).
- `ack_required` is meant to be true exactly when an op is anticipated. A
  flush of an owned buffer sets `anticipated` to the freshly cleared buffer,
  NULL, so an acknowledgment is pending with nothing anticipated
  (`AckResendsFirstEdit`). The model proves the weaker `Inv` instead.
- Ops owned by the document are meant never to be released by the session.
  `ot_client_receive` releases the buffer unconditionally, even a borrowed one
  (`ForeignOpReleasesLoggedEdit`). It also never updates `buffer_needs_free`.
- Observers are meant to be notified of each remote op committed to the
  document. `fire_op_event` only checks its arguments, so the event callback is
  never called.
- A decoding failure is meant to drop the message. `ot_decode`'s result is
  ignored, so the session acts on whatever op decoding leaves behind. The
  result of the document append in `ot_client_receive` is ignored as well.

## Left out

- The `fprintf` diagnostics and the hex formatting of the hash (client.c:30, 43, 99, 104-106) are logging only and are not modelled.
- `DocAppend` is only the abstraction of `ot_doc_append` on a log: an accepted op is added at the end, a rejected one leaves the log as it was. It carries no contract of its own.
- The internals of `ot_compose`, `ot_xform`, `ot_encode`, `ot_decode`, `ot_doc_append`, `ot_new_doc`, `ot_new_op` and `ot_free_op` are not part of this model. The first five are fields of a `Library` value; `ot_new_doc` is an empty log; `ot_decode` is total, standing for the op it leaves behind.
- Convergence of the transform (the OT diamond property) belongs to `ot_xform` and is not stated.
- Memory is not modelled. `malloc` and `free` of the client, the document's own teardown in `ot_free_client`, and double frees or uses after free are all absent. Each `ot_free_op` is recorded in the `released` trace instead, and `ot_free_op(NULL)` is recorded as no release.
- `ot_doc_append` takes `op**` and could in principle replace the caller's pointer. The model assumes it does not.
- The transport and event callbacks are not modelled beyond the `outbox` trace of sent messages. `FireOpEvent` is a method that does nothing, as in the source.
- Concurrency is absent from the source; calls on a session are taken to be serialized by the caller.
