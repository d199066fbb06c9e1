/**
  The wire protocol between clients and the relay. Frames arrive as JSON text;
  the JSON codec itself is a boundary, so a frame is modelled by what parsing
  it yields and by what each of the three properties the relay reads holds.
 */
module Protocol {

  /** A peer id, unique within its room while the peer is connected. */
  type PeerId = string

  /** The identity of one client's socket; two handles are the same socket
      exactly when they are equal. */
  type Handle = nat

  /** What one property (`type`, `to` or `data`) of a parsed frame holds. */
  datatype Field = Absent | Text(s: string) | NotText

  /** The result of parsing an inbound frame: a parse error, the JSON
      literal `null`, or any other JSON value. A value with no such property
      (a number, a string, an array) has every property Absent. */
  datatype Frame = Unparsable | NullValue | Value(kind: Field, to: Field, data: Field)

  /** What the relay does with one inbound frame. */
  datatype Request = Skip | JoinRequest | SignalRequest(to: PeerId, data: string)

  /** Messages the relay sends to clients. */
  datatype Message =
    | Join(id: PeerId, peerIds: seq<PeerId>)  // reply to a joining client
    | Add(id: PeerId)                         // a peer joined
    | Signal(from: PeerId, data: string)      // a relayed payload
    | Remove(id: PeerId)                      // a peer left

  /** One `send` call: the socket written to and the message written. */
  datatype Delivery = Delivery(to: Handle, msg: Message)

  /** How the handler's reading of a frame ends: with a request, or with
      an exception thrown out of the message loop. */
  datatype Outcome = Dispatched(request: Request) | Thrown

  /** The message handler's reading of a frame, with a `null` frame
      discarded like any other frame that carries no request. */
  function Decode(f: Frame): (r: Request)
    ensures r == JoinRequest <==> f.Value? && f.kind == Text("join")
    ensures r.SignalRequest? <==>
      f.Value? && f.kind == Text("signal") && f.to.Text? && f.data.Text?
    ensures r.SignalRequest? ==> r.to == f.to.s && r.data == f.data.s
    ensures f.Unparsable? || f.NullValue? ==> r == Skip
  {
    match f
    case Unparsable => Skip
    case NullValue => Skip
    case Value(kind, to, data) =>
      if kind == Text("join") then JoinRequest
      else if kind == Text("signal") && to.Text? && data.Text? then SignalRequest(to.s, data.s)
      else Skip
  }

  /** The handler's reading of a frame as the code has it: a parse error
      is skipped, but reading `type` of a parsed `null` throws a TypeError,
      which the loop's catch rethrows because it is not an AbortError. */
  function DecodeAsWritten(f: Frame): (r: Outcome)
    ensures r.Thrown? <==> f.NullValue?
    ensures f.Unparsable? ==> r == Dispatched(Skip)
  {
    match f
    case Unparsable => Dispatched(Skip)
    case NullValue => Thrown
    case Value(kind, to, data) =>
      if kind == Text("join") then Dispatched(JoinRequest)
      else if kind == Text("signal") && to.Text? && data.Text? then Dispatched(SignalRequest(to.s, data.s))
      else Dispatched(Skip)
  }

  /** The frame `null` ends the message loop in the code as written, where
      the corrected reading skips it. */
  lemma NullFrameThrows()
    ensures DecodeAsWritten(NullValue) == Thrown
    ensures Decode(NullValue) == Skip
  {
  }

  /** On every other frame the two readings agree. */
  lemma DecodeAgreesOnOtherFrames(f: Frame)
    requires f != NullValue
    ensures DecodeAsWritten(f) == Dispatched(Decode(f))
  {
  }
}
