/**
 * Whole sessions: what holds after any sequence of local edits and server
 * messages, and short runs that show how the code as written treats its
 * buffer and its ownership flags.
 */
module ClientRuns {
  import opened OtLibrary
  import opened ClientModel

  /** One call into the session: `ot_client_apply` or `ot_client_receive`. */
  datatype Event = Local(op: Op) | Message(msg: string)

  function Step(lib: Library, s: Session, e: Event): Session {
    match e
    case Local(op) => Apply(lib, s, op).0
    case Message(msg) => Receive(lib, s, msg)
  }

  function Run(lib: Library, s: Session, events: seq<Event>): Session
    decreases |events|
  {
    if events == [] then s else Run(lib, Step(lib, s, events[0]), events[1..])
  }

  /** The number of messages among `events` that acknowledge client `id`. */
  function Acks(lib: Library, id: uint32, events: seq<Event>): nat
    decreases |events|
  {
    if events == [] then 0
    else
      var here := if events[0].Message? && lib.decode(events[0].msg).clientId == id then 1 else 0;
      here + Acks(lib, id, events[1..])
  }

  /** 1 while no acknowledgment is pending, else 0. */
  function Idle(s: Session): nat {
    if s.ackRequired then 0 else 1
  }

  lemma StepKeepsInv(lib: Library, s: Session, e: Event)
    requires XformKeepsPresence(lib)
    requires Inv(s)
    ensures Inv(Step(lib, s, e))
  {
    match e
    case Local(op) => ApplyKeepsInv(lib, s, op);
    case Message(msg) => ReceiveKeepsInv(lib, s, msg);
  }

  /** From a state satisfying `Inv` (a new client does), every run ends in one:
      with no acknowledgment pending, nothing is left unsent in the buffer. */
  lemma {:induction false} RunKeepsInv(lib: Library, s: Session, events: seq<Event>)
    requires XformKeepsPresence(lib)
    requires Inv(s)
    ensures Inv(Run(lib, s, events))
    decreases |events|
  {
    if events != [] {
      StepKeepsInv(lib, s, events[0]);
      RunKeepsInv(lib, Step(lib, s, events[0]), events[1..]);
    }
  }

  /** A run only adds to what has been sent and released, never changes the
      client's identity, and only extends a document that is already there. */
  lemma {:induction false} RunOnlyExtends(lib: Library, s: Session, events: seq<Event>)
    ensures var r := Run(lib, s, events);
      r.clientId == s.clientId &&
      s.outbox <= r.outbox && s.released <= r.released &&
      (s.doc.Some? ==> r.doc.Some? && s.doc.value <= r.doc.value)
    decreases |events|
  {
    if events != [] {
      var t := Step(lib, s, events[0]);
      assert t.clientId == s.clientId && s.outbox <= t.outbox && s.released <= t.released;
      assert s.doc.Some? ==> t.doc.Some? && s.doc.value <= t.doc.value;
      RunOnlyExtends(lib, t, events[1..]);
    }
  }

  /** One step sends at most one message, and a send uses up either the idle
      state or an acknowledgment carried by the step itself. */
  lemma StepBoundsSends(lib: Library, s: Session, e: Event)
    ensures var t := Step(lib, s, e);
      s.outbox <= t.outbox && |t.outbox| <= |s.outbox| + 1 &&
      |t.outbox| + Idle(t) <= |s.outbox| + Idle(s) + Acks(lib, s.clientId, [e])
  {
    assert [e][1..] == [];
    match e
    case Local(op) =>
    case Message(msg) =>
  }

  /** At most one op is in flight per acknowledgment: over any run, the
      number of messages sent is at most the number of acknowledgments
      received, plus one if the run starts with nothing pending. */
  lemma {:induction false} RunBoundsSends(lib: Library, s: Session, events: seq<Event>)
    ensures var r := Run(lib, s, events);
      |r.outbox| + Idle(r) <= |s.outbox| + Idle(s) + Acks(lib, s.clientId, events)
    decreases |events|
  {
    if events != [] {
      var t := Step(lib, s, events[0]);
      StepBoundsSends(lib, s, events[0]);
      RunBoundsSends(lib, t, events[1..]);
      assert t.clientId == s.clientId;
      assert Acks(lib, s.clientId, events) ==
        Acks(lib, s.clientId, [events[0]]) + Acks(lib, s.clientId, events[1..]);
    }
  }

  /** The first accepted local edit of a new client is sent, and afterwards
      the buffer still holds that very op, borrowed, with anticipated aliasing
      it: `free_buffer` only clears an owned buffer. */
  lemma FirstEditStaysBuffered(lib: Library, id: uint32, op: Op)
    requires lib.append([], op) == ErrNone
    ensures var (r, err) := Apply(lib, NewSession(id), op);
      err == ErrNone && r.doc == Some([op]) && r.outbox == [lib.encode(op)] &&
      r.ackRequired && r.buffer == Some(op) && !r.bufferNeedsFree &&
      r.anticipated == Some(op) && r.released == []
  {
    assert [] + [op] == [op];
    assert [] + [lib.encode(op)] == [lib.encode(op)];
  }

  /** Because the first edit stays in the buffer, a second edit is composed
      with it, and the acknowledgment of the first flushes the composition:
      the first edit is sent again.  The second flush frees the owned buffer
      and so leaves an acknowledgment pending with no anticipated op. */
  lemma AckResendsFirstEdit(lib: Library, id: uint32, op1: Op, op2: Op, both: Op, ack: string)
    requires lib.append([], op1) == ErrNone && lib.append([op1], op2) == ErrNone
    requires lib.compose(op1, op2) == Some(both)
    requires lib.decode(ack).clientId == id
    ensures var r := Run(lib, NewSession(id), [Local(op1), Local(op2), Message(ack)]);
      r.outbox == [lib.encode(op1), lib.encode(both)] &&
      r.ackRequired && r.anticipated.None? && r.buffer.None? &&
      r.released == [lib.decode(ack), both]
  {
    var s0 := NewSession(id);
    FirstEditStaysBuffered(lib, id, op1);
    var s1 := Apply(lib, s0, op1).0;
    var s2 := Apply(lib, s1, op2).0;
    assert s2.buffer == Some(both) && s2.bufferNeedsFree && s2.outbox == [lib.encode(op1)];
    var events := [Local(op1), Local(op2), Message(ack)];
    assert Run(lib, s0, events) == Run(lib, s1, events[1..]);
    assert Run(lib, s1, events[1..]) == Run(lib, s2, events[2..]);
    var s3 := Receive(lib, s2, ack);
    assert Run(lib, s2, events[2..]) == Run(lib, s3, []);
    assert s3.outbox == [lib.encode(op1)] + [lib.encode(both)];
  }

  /** A borrowed buffer is never cleared by a flush, so every acknowledgment
      sends it again: with a server that acknowledges each message, a single
      edit is sent once per acknowledgment, forever. */
  lemma {:induction false} EveryAckResendsBorrowedBuffer(lib: Library, s: Session, ack: string, n: nat)
    requires s.buffer.Some? && !s.bufferNeedsFree
    requires lib.decode(ack).clientId == s.clientId
    ensures var r := Run(lib, s, seq(n, _ => Message(ack)));
      r.outbox == s.outbox + seq(n, _ => lib.encode(s.buffer.value)) &&
      r.buffer == s.buffer && !r.bufferNeedsFree &&
      (n > 0 ==> r.ackRequired && r.anticipated == s.buffer)
    decreases n
  {
    var events := seq(n, _ => Message(ack));
    if n > 0 {
      var t := Receive(lib, s, ack);
      assert events[0] == Message(ack);
      assert events[1..] == seq(n - 1, _ => Message(ack));
      EveryAckResendsBorrowedBuffer(lib, t, ack, n - 1);
      var sent := lib.encode(s.buffer.value);
      assert s.outbox + [sent] + seq(n - 1, _ => sent) == s.outbox + seq(n, _ => sent);
    }
  }

  /** A new client's single edit, acknowledged `n` times, has been sent
      `n + 1` times. */
  lemma SoleEditResentOnEveryAck(lib: Library, id: uint32, op: Op, ack: string, n: nat)
    requires lib.append([], op) == ErrNone
    requires lib.decode(ack).clientId == id
    ensures var r := Run(lib, NewSession(id), [Local(op)] + seq(n, _ => Message(ack)));
      r.outbox == seq(n + 1, _ => lib.encode(op)) && r.ackRequired && r.buffer == Some(op)
  {
    FirstEditStaysBuffered(lib, id, op);
    var s1 := Apply(lib, NewSession(id), op).0;
    var events := [Local(op)] + seq(n, _ => Message(ack));
    assert events[1..] == seq(n, _ => Message(ack));
    EveryAckResendsBorrowedBuffer(lib, s1, ack, n);
    var sent := lib.encode(op);
    assert [sent] + seq(n, _ => sent) == seq(n + 1, _ => sent);
  }

  /** A foreign op arriving while the first edit is still buffered releases
      that edit, although the document log still holds it. */
  lemma ForeignOpReleasesLoggedEdit(lib: Library, id: uint32, op: Op, msg: string)
    requires lib.append([], op) == ErrNone
    requires lib.decode(msg).clientId != id
    ensures var r := Run(lib, NewSession(id), [Local(op), Message(msg)]);
      op in r.released && r.doc.Some? && op in r.doc.value
  {
    var s0 := NewSession(id);
    FirstEditStaysBuffered(lib, id, op);
    var s1 := Apply(lib, s0, op).0;
    var events := [Local(op), Message(msg)];
    assert Run(lib, s0, events) == Run(lib, s1, events[1..]);
    var r := Receive(lib, s1, msg);
    assert r.doc.value[0] == op;
  }

  /** An acknowledgment with nothing buffered and nothing pending changes only
      the release trace, by the decoded message itself. */
  lemma DuplicateAckChangesNothing(lib: Library, s: Session, msg: string)
    requires !s.ackRequired && s.buffer.None?
    requires lib.decode(msg).clientId == s.clientId
    ensures Receive(lib, s, msg) == s.(released := s.released + [lib.decode(msg)])
  {
  }
}
