/**
 * The client session of client.c as values: a `Session` is the content of an
 * `ot_client` record together with what it has done to the outside world
 * (the messages handed to the send callback, the ops handed to `ot_free_op`),
 * and every function of client.c is a function from the old session to the
 * new one.  The class in client_session.dfy is proved to follow these.
 */
module ClientModel {
  import opened OtLibrary

  /** An `ot_client`.  `doc` is `None` while the document pointer is NULL and
      otherwise the log of ops the document has accepted.  `outbox` lists the
      encoded ops passed to the send callback, in order; `released` lists the
      ops passed to `ot_free_op`, in order. */
  datatype Session = Session(
    buffer: Option<Op>,
    bufferNeedsFree: bool,
    anticipated: Option<Op>,
    anticipatedNeedsFree: bool,
    ackRequired: bool,
    doc: Option<seq<Op>>,
    clientId: uint32,
    outbox: seq<string>,
    released: seq<Op>)

  /** `ot_free_op(o)`: a NULL pointer releases nothing. */
  function Release(trace: seq<Op>, o: Option<Op>): seq<Op> {
    match o
    case None => trace
    case Some(op) => trace + [op]
  }

  /** `ot_new_client`. */
  function NewSession(id: uint32): Session {
    Session(None, false, None, false, false, None, id, [], [])
  }

  /** `ot_client_open`: the document pointer is replaced, nothing is released. */
  function Open(s: Session, doc: Option<seq<Op>>): Session {
    s.(doc := doc)
  }

  /** `free_anticipated`: releases the anticipated op when it is owned and
      clears the flag, but leaves the pointer in place. */
  function FreeAnticipated(s: Session): Session {
    if s.anticipatedNeedsFree then
      s.(released := Release(s.released, s.anticipated), anticipatedNeedsFree := false)
    else s
  }

  /** `free_buffer`: only an owned buffer is released and nulled. */
  function FreeBuffer(s: Session): Session {
    if s.bufferNeedsFree then
      s.(released := Release(s.released, s.buffer), buffer := None, bufferNeedsFree := false)
    else s
  }

  /** `buffer_op`: merges a local op into the buffer. */
  function BufferOp(lib: Library, s: Session, op: Op): (r: (Session, OtErr))
    // it fails exactly when there is a buffer and it does not compose with `op`
    ensures r.1 == ErrNone <==> s.buffer.None? || lib.compose(s.buffer.value, op).Some?
    ensures r.1 != ErrNone ==> r.1 == ErrBufferFailed && r.0 == s
    // an empty buffer borrows `op` itself; otherwise it owns the composition
    ensures s.buffer.None? ==> r.0.buffer == Some(op) && !r.0.bufferNeedsFree
    ensures s.buffer.Some? && r.1 == ErrNone ==>
      r.0.buffer == lib.compose(s.buffer.value, op) && r.0.bufferNeedsFree
    // the superseded buffer is released only if it was owned
    ensures r.0.released ==
      if r.1 == ErrNone && s.buffer.Some? && s.bufferNeedsFree then s.released + [s.buffer.value]
      else s.released
    // no other field changes
    ensures r.0.(buffer := s.buffer, bufferNeedsFree := s.bufferNeedsFree, released := s.released) == s
  {
    if s.buffer.None? then
      (s.(buffer := Some(op), bufferNeedsFree := false), ErrNone)
    else
      var composed := lib.compose(s.buffer.value, op);
      if composed.None? then
        (s, ErrBufferFailed)
      else
        var t := FreeBuffer(s);
        (t.(buffer := composed, bufferNeedsFree := true), ErrNone)
  }

  /** `send_buffer`: hands the encoded buffer to the send callback. */
  function SendBuffer(lib: Library, s: Session): (r: Session)
    ensures s.buffer.None? ==> r == s
    // exactly one message, the encoded buffer, is sent
    ensures s.buffer.Some? ==> r.outbox == s.outbox + [lib.encode(s.buffer.value)]
    ensures s.buffer.Some? ==> r.ackRequired && !r.anticipatedNeedsFree && !r.bufferNeedsFree
    // an owned buffer is released and cleared, a borrowed one stays in place;
    // either way anticipated then aliases what is left in the buffer
    ensures s.buffer.Some? ==> r.buffer == (if s.bufferNeedsFree then None else s.buffer)
    ensures s.buffer.Some? ==> r.anticipated == r.buffer
    ensures s.buffer.Some? ==>
      r.released == if s.bufferNeedsFree then s.released + [s.buffer.value] else s.released
    ensures r.doc == s.doc && r.clientId == s.clientId
  {
    if s.buffer.None? then s
    else
      var sent := s.(outbox := s.outbox + [lib.encode(s.buffer.value)]);
      var t := FreeBuffer(sent);
      t.(ackRequired := true, anticipated := t.buffer, anticipatedNeedsFree := false)
  }

  /** `ot_client_receive`: a message from the server. */
  function Receive(lib: Library, s: Session, msg: string): (r: Session)
    ensures r.clientId == s.clientId
    // at most one message is sent, and only for an acknowledgment
    ensures r.outbox == s.outbox || (s.buffer.Some? && r.outbox == s.outbox + [lib.encode(s.buffer.value)])
    // an acknowledgment leaves the document alone and keeps an op in flight
    // exactly when something was buffered
    ensures lib.decode(msg).clientId == s.clientId ==>
      r.doc == s.doc && (r.ackRequired <==> s.buffer.Some?)
    // it releases the decoded op, clears the pending flag and flushes the buffer
    ensures lib.decode(msg).clientId == s.clientId ==>
      r == SendBuffer(lib, s.(released := s.released + [lib.decode(msg)], ackRequired := false))
    ensures lib.decode(msg).clientId == s.clientId && s.buffer.Some? ==>
      r.outbox == s.outbox + [lib.encode(s.buffer.value)]
    // a foreign op sends nothing, keeps the acknowledgment state, owns the new
    // anticipated op and reaches the document
    ensures lib.decode(msg).clientId != s.clientId ==>
      r.outbox == s.outbox && r.ackRequired == s.ackRequired &&
      r.anticipatedNeedsFree && r.doc.Some?
    ensures lib.decode(msg).clientId != s.clientId ==>
      var p := lib.xform(s.anticipated, lib.decode(msg));
      var p2 := lib.xform(s.buffer, p.1);
      r.anticipated == p.0 && r.buffer == p2.0 &&
      r.doc.value == DocAppend(lib, s.doc.GetOr([]), p2.1).0
    // released, in order: the anticipated op if it was owned, the old buffer
    // even when it was only borrowed, and the transformed remote op; the
    // buffer's ownership flag is carried over to the transformed buffer
    ensures lib.decode(msg).clientId != s.clientId ==>
      r.bufferNeedsFree == s.bufferNeedsFree &&
      r.released == s.released
        + (if s.anticipatedNeedsFree && s.anticipated.Some? then [s.anticipated.value] else [])
        + (if s.buffer.Some? then [s.buffer.value] else [])
        + [lib.xform(s.anticipated, lib.decode(msg)).1]
  {
    var dec := lib.decode(msg);
    if dec.clientId == s.clientId then
      SendBuffer(lib, s.(released := s.released + [dec], ackRequired := false))
    else
      var p := lib.xform(s.anticipated, dec);
      var freed := FreeAnticipated(s);
      var t := freed.(anticipated := p.0, anticipatedNeedsFree := true);
      var p2 := lib.xform(t.buffer, p.1);
      // the buffer is released whether or not it was owned, and its flag is kept
      var t := t.(released := Release(t.released, t.buffer) + [p.1], buffer := p2.0);
      t.(doc := Some(DocAppend(lib, t.doc.GetOr([]), p2.1).0))
  }

  /** `ot_client_apply`: a local edit. */
  function Apply(lib: Library, s: Session, op: Op): (r: (Session, OtErr))
    ensures r.0.doc.Some? && r.0.clientId == s.clientId
    // the document log gains `op` exactly when it accepts it
    ensures var log := s.doc.GetOr([]);
      r.0.doc.value == (if lib.append(log, op) == ErrNone then log + [op] else log)
    // a rejected op comes back with the log's error and changes nothing else
    ensures lib.append(s.doc.GetOr([]), op) != ErrNone ==>
      r.1 == lib.append(s.doc.GetOr([]), op) && r.0 == s.(doc := r.0.doc)
    // on any error nothing but the document changes: nothing is sent or
    // released, and the slots and their ownership flags are untouched
    ensures r.1 != ErrNone ==> r.0 == s.(doc := r.0.doc)
    // with an acknowledgment pending nothing is sent
    ensures s.ackRequired ==> r.0.outbox == s.outbox && r.0.ackRequired
    // otherwise an accepted op is sent at once, alone or composed with the buffer
    ensures !s.ackRequired && r.1 == ErrNone ==>
      r.0.ackRequired && |r.0.outbox| == |s.outbox| + 1 && r.0.outbox[..|s.outbox|] == s.outbox
    // an accepted op then succeeds exactly when it can be merged into the
    // buffer, and otherwise fails with the buffer's own error
    ensures lib.append(s.doc.GetOr([]), op) == ErrNone ==>
      (r.1 == ErrNone <==> s.buffer.None? || lib.compose(s.buffer.value, op).Some?) &&
      (r.1 != ErrNone ==> r.1 == ErrBufferFailed)
    // an accepted and merged op is in the buffer as `buffer_op` leaves it, and
    // that buffer is flushed when no acknowledgment is pending
    ensures r.1 == ErrNone ==>
      var b := BufferOp(lib, s.(doc := r.0.doc), op).0;
      r.0 == if s.ackRequired then b else SendBuffer(lib, b)
    // in particular, from an idle session the op itself is what is sent
    ensures Inv(s) && !s.ackRequired && r.1 == ErrNone ==>
      r.0.outbox == s.outbox + [lib.encode(op)] && r.0.anticipated == Some(op)
  {
    var (log', appendErr) := DocAppend(lib, s.doc.GetOr([]), op);
    var t := s.(doc := Some(log'));
    if appendErr != ErrNone then (t, appendErr)
    else
      var (t, bufErr) := BufferOp(lib, t, op);
      if bufErr != ErrNone then (t, bufErr)
      else if !t.ackRequired then (SendBuffer(lib, t), ErrNone)
      else (t, ErrNone)
  }

  /** `ot_free_client`: the owned slots are released; the document's own
      teardown is not recorded. */
  function FreeClient(s: Session): Session {
    FreeBuffer(FreeAnticipated(s))
  }

  /** What holds of the session between calls, whatever sequence of local
      edits and messages led to it: with no acknowledgment pending the buffer
      is empty (it was flushed), and a buffer marked for release is present. */
  ghost predicate Inv(s: Session) {
    (!s.ackRequired ==> s.buffer.None?) && (s.bufferNeedsFree ==> s.buffer.Some?)
  }

  lemma NewSessionInv(id: uint32)
    ensures Inv(NewSession(id))
  {
  }

  lemma ApplyKeepsInv(lib: Library, s: Session, op: Op)
    requires Inv(s)
    ensures Inv(Apply(lib, s, op).0)
  {
  }

  lemma ReceiveKeepsInv(lib: Library, s: Session, msg: string)
    requires XformKeepsPresence(lib)
    requires Inv(s)
    ensures Inv(Receive(lib, s, msg))
  {
    var dec := lib.decode(msg);
    var p := lib.xform(s.anticipated, dec);
    assert lib.xform(s.buffer, p.1).0.Some? == s.buffer.Some?;
  }
}
