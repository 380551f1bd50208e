/**
 * The `ot_client` record of client.c as an object whose methods update its
 * fields in place.  Each method is proved to leave the object in the state the
 * matching function of `ClientModel` computes from the state before the call,
 * so everything proved about those functions holds of the object too.
 */
module ClientSession {
  import opened OtLibrary
  import ClientModel

  class Client {
    var buffer: Option<Op>
    var bufferNeedsFree: bool
    var anticipated: Option<Op>
    var anticipatedNeedsFree: bool
    var ackRequired: bool
    /** The document, `None` while the pointer is NULL, otherwise its log. */
    var doc: Option<seq<Op>>
    const clientId: uint32
    /** Every message passed to the send callback, oldest first. */
    ghost var outbox: seq<string>
    /** Every op passed to `ot_free_op`, oldest first. */
    ghost var released: seq<Op>

    ghost function State(): ClientModel.Session
      reads this
    {
      ClientModel.Session(buffer, bufferNeedsFree, anticipated, anticipatedNeedsFree,
                          ackRequired, doc, clientId, outbox, released)
    }

    /** `ot_new_client`; the send callback is the outbox, and the event
        callback is stored but, as in the source, never called. */
    constructor (id: uint32)
      ensures buffer.None? && anticipated.None? && doc.None?
      ensures !ackRequired && !bufferNeedsFree && !anticipatedNeedsFree
      ensures clientId == id && outbox == [] && released == []
      ensures State() == ClientModel.NewSession(id) && ClientModel.Inv(State())
    {
      buffer := None;
      anticipated := None;
      doc := None;
      clientId := id;
      ackRequired := false;
      anticipatedNeedsFree := false;
      bufferNeedsFree := false;
      outbox := [];
      released := [];
    }

    method FreeAnticipated()
      modifies this
      ensures State() == ClientModel.FreeAnticipated(old(State()))
      ensures !anticipatedNeedsFree && anticipated == old(anticipated)
    {
      if anticipatedNeedsFree {
        released := ClientModel.Release(released, anticipated);
        anticipatedNeedsFree := false;
      }
    }

    method FreeBuffer()
      modifies this
      ensures State() == ClientModel.FreeBuffer(old(State()))
      ensures !bufferNeedsFree
      ensures buffer == if old(bufferNeedsFree) then None else old(buffer)
    {
      if bufferNeedsFree {
        released := ClientModel.Release(released, buffer);
        buffer := None;
        bufferNeedsFree := false;
      }
    }

    method BufferOp(lib: Library, op: Op) returns (err: OtErr)
      modifies this
      ensures (State(), err) == ClientModel.BufferOp(lib, old(State()), op)
    {
      if buffer.None? {
        buffer := Some(op);
        // the op belongs to the document, so the buffer only borrows it
        bufferNeedsFree := false;
        return ErrNone;
      }
      var composed := lib.compose(buffer.value, op);
      if composed.None? {
        return ErrBufferFailed;
      }
      FreeBuffer();
      buffer := composed;
      bufferNeedsFree := true;
      return ErrNone;
    }

    method SendBuffer(lib: Library)
      modifies this
      ensures State() == ClientModel.SendBuffer(lib, old(State()))
    {
      if buffer.None? {
        return;
      }
      outbox := outbox + [lib.encode(buffer.value)];
      FreeBuffer();
      ackRequired := true;
      anticipated := buffer;
      anticipatedNeedsFree := false;
    }

    /** `fire_op_event` only checks its arguments; the event callback is not
        invoked. */
    method FireOpEvent(op: Op) {
    }

    /** `ot_free_client`: the document is torn down with the client (not
        recorded), then the owned anticipated op and buffer are released. */
    method Free()
      modifies this
      ensures State() == ClientModel.FreeClient(old(State()))
      ensures !anticipatedNeedsFree && !bufferNeedsFree
    {
      FreeAnticipated();
      FreeBuffer();
    }

    method Open(d: Option<seq<Op>>)
      modifies this
      ensures State() == ClientModel.Open(old(State()), d)
      ensures doc == d
    {
      doc := d;
    }

    method Receive(lib: Library, msg: string)
      modifies this
      ensures State() == ClientModel.Receive(lib, old(State()), msg)
      ensures XformKeepsPresence(lib) && ClientModel.Inv(old(State())) ==> ClientModel.Inv(State())
    {
      ghost var before := State();
      var dec := lib.decode(msg);
      if dec.clientId == clientId {
        // an acknowledgment of the op in flight
        released := released + [dec];
        ackRequired := false;
        SendBuffer(lib);
      } else {
        var p := lib.xform(anticipated, dec);
        FreeAnticipated();
        anticipated := p.0;
        anticipatedNeedsFree := true;

        var p2 := lib.xform(buffer, p.1);
        released := ClientModel.Release(released, buffer);
        released := released + [p.1];
        buffer := p2.0;

        if doc.None? {
          doc := Some([]);
        }
        var (log, _) := DocAppend(lib, doc.value, p2.1);
        doc := Some(log);
        FireOpEvent(p2.1);
      }
      if XformKeepsPresence(lib) && ClientModel.Inv(before) {
        ClientModel.ReceiveKeepsInv(lib, before, msg);
      }
    }

    method Apply(lib: Library, op: Op) returns (err: OtErr)
      modifies this
      ensures (State(), err) == ClientModel.Apply(lib, old(State()), op)
      ensures ClientModel.Inv(old(State())) ==> ClientModel.Inv(State())
    {
      ghost var before := State();
      if doc.None? {
        doc := Some([]);
      }
      var (log, appendErr) := DocAppend(lib, doc.value, op);
      doc := Some(log);
      if appendErr != ErrNone {
        return appendErr;
      }
      err := BufferOp(lib, op);
      if err != ErrNone {
        return;
      }
      if !ackRequired {
        SendBuffer(lib);
      }
      if ClientModel.Inv(before) {
        ClientModel.ApplyKeepsInv(lib, before, op);
      }
    }
  }
}
