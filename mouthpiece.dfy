/** The response helper: a `Mouthpiece` records an error and, when asked to
    convey the result, sets its status and message from that error and hands
    itself to `Response`. `Response` marshals it as JSON, passes the text
    through `strconv.Unquote` wrapped in double quotes (a failure there, which
    it ignores, leaves the empty text), and writes the result. */
module Mouthpieces {
  import opened Errors

  /** The http.ResponseWriter a mouthpiece writes to, known only by identity. */
  datatype ResponseWriter = ResponseWriter(id: nat)

  /** The `Data` payload, an arbitrary Go value, known only by its JSON text. */
  datatype Payload = NilPayload | Payload(json: string)

  /** What json.Marshal sees of a mouthpiece: `Err` is tagged `json:"-"` and
      the writer is unexported, so only these three fields are marshalled. */
  datatype Envelope = Envelope(message: string, status: int, data: Payload)

  /** Response: marshal the envelope, unquote the JSON text (an unquoting
      failure is ignored and leaves the empty text), write what remains to the
      writer, and return the error of marshalling or writing. All three steps
      are library calls. */
  type Responder = (ResponseWriter, Envelope) -> Option<Error>

  /** The fields Convey reads and writes. */
  datatype State = State(err: Option<Error>, message: string, status: int, data: Payload)

  /** The state Convey leaves: status -1 and the error's text as message when
      there is an error, status 0 and the message as it was otherwise. */
  function Conveyed(s: State): (r: State)
    ensures s.err.Some? ==> r.message == Text(s.err.value)
    ensures s.err.None? ==> r.message == s.message
  {
    if s.err.Some? then s.(status := -1, message := Text(s.err.value)) else s.(status := 0)
  }

  /** The status reports whether an error was set, and nothing else changes
      but the status and the message. */
  lemma ConveyedStatus(s: State)
    ensures Conveyed(s).status == (if s.err.Some? then -1 else 0)
    ensures Conveyed(s).err == s.err && Conveyed(s).data == s.data
  {
  }

  /** Conveying twice with the same error gives the same status and message. */
  lemma ConveyIdempotent(s: State)
    ensures Conveyed(Conveyed(s)) == Conveyed(s)
  {
  }

  /** Convey does not clear the message: after an error has been conveyed,
      clearing the error and conveying again reports success with the old
      error's text still in the message. */
  lemma StaleMessageSurvives(s: State, e: Error)
    ensures var after := Conveyed(Conveyed(s.(err := Some(e))).(err := None));
      after.status == 0 && after.message == Text(e)
  {
  }

  class Mouthpiece {
    const resp: ResponseWriter
    var err: Option<Error>
    var message: string
    var status: int
    var data: Payload

    function Snapshot(): State
      reads this
    {
      State(err, message, status, data)
    }

    /** NewMouthpiece: status -1 until something is conveyed, no error. */
    constructor (resp: ResponseWriter)
      ensures this.resp == resp
      ensures status == -1 && err == None && message == "" && data == NilPayload
    {
      this.resp := resp;
      err := None;
      message := "";
      status := -1;
      data := NilPayload;
    }

    /** SetError: records the error; status, message and data stay. */
    method SetError(e: Option<Error>)
      modifies this`err
      ensures err == e
    {
      err := e;
    }

    /** Convey: sets status and message from the recorded error, then returns
        exactly the error `Response` gives for the resulting envelope. */
    method Convey(respond: Responder) returns (respErr: Option<Error>)
      modifies this`status, this`message
      ensures Snapshot() == Conveyed(old(Snapshot()))
      ensures err.Some? ==> status == -1 && message == Text(err.value)
      ensures err.None? ==> status == 0 && message == old(message)
      ensures respErr == respond(resp, Envelope(message, status, data))
    {
      if err.Some? {
        status := -1;
        message := Text(err.value);
      } else {
        status := 0;
      }
      respErr := respond(resp, Envelope(message, status, data));
    }
  }
}
