/**
 * The parts of libot that the client session uses but does not define:
 * the operation record, the error codes, and the primitives `ot_compose`,
 * `ot_xform`, `ot_encode`, `ot_decode` and `ot_doc_append`.  The primitives'
 * internals are not part of this model, so they are carried around as a
 * `Library` value of function fields, which the session is given on every call.
 */
module OtLibrary {

  /** C's `uint32_t`, the type of client identities. */
  newtype uint32 = x: int | 0 <= x < 0x1_0000_0000

  datatype Option<+T> = None | Some(value: T) {
    function GetOr(default: T): T {
      if Some? then value else default
    }
  }

  /** `ot_err`: success, the buffer's own failure code, and any other code the
      document log may report. */
  datatype OtErr = ErrNone | ErrBufferFailed | ErrOther(code: nat)

  /** `ot_op`: the author's identity, the 20-byte hash of the document state it
      was made against, and a payload only the primitives interpret. */
  datatype Op = Op(clientId: uint32, hash: seq<bv8>, payload: seq<bv8>)

  /** The primitives, as the call sites in the client see them.
      - `compose(a, b)` is the composition of `a` then `b`, or `None` where
        composition is undefined (`ot_compose` returning NULL);
      - `xform(a, b)` is `ot_xform`, whose first operand may be NULL;
      - `encode` and `decode` translate to and from the wire text; `decode`
        yields whatever op `ot_decode` leaves behind, since its error code is
        never looked at;
      - `append(log, op)` is the code `ot_doc_append` returns for `op` on a
        document whose log is `log`. */
  datatype Library = Library(
    compose: (Op, Op) -> Option<Op>,
    xform: (Option<Op>, Op) -> (Option<Op>, Op),
    encode: Op -> string,
    decode: string -> Op,
    append: (seq<Op>, Op) -> OtErr)

  /** `ot_doc_append` on a document log: an accepted op is added at the end,
      a rejected one leaves the log as it was. */
  function DocAppend(lib: Library, log: seq<Op>, op: Op): (seq<Op>, OtErr) {
    var err := lib.append(log, op);
    if err == ErrNone then (log + [op], err) else (log, err)
  }

  /** What the transform is expected to do with an absent operand: the
      transformed first operand is present exactly when the first operand was. */
  ghost predicate XformKeepsPresence(lib: Library) {
    forall a: Option<Op>, b: Op :: lib.xform(a, b).0.Some? == a.Some?
  }
}
