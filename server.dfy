/** One pass of the accept loop in `main`: receive a request, let the
    handler answer it, turn every failure into the response the server
    promises for it, send the response and close the connection. The
    handler stands for the API dispatch and `get_file`, which this model
    takes as a parameter. */
module Server {
  import opened Basics
  import opened Octets
  import opened Dicts
  import opened Numbers
  import opened Grammar
  import opened Files
  import opened Connection
  import opened Framing

  const BadRequestStatus := 400
  const BadRequestReason := "Bad Request"
  const RequestTimeoutStatus := 408
  const RequestTimeoutReason := "Request Timeout"
  const InternalServerErrorStatus := 500
  const InternalServerErrorReason := "Internal Server Error"

  /** The arguments of the `HttpResponse` a handler or `main` builds. */
  datatype Reply = Reply(status: int, reason: string, headers: Dict<string, string>, body: seq<byte>)

  /** The `except` clauses of `main`: a bad request is answered with 400
      and its message as plain text, a time-out with 408 and
      `Connection: close` (section 6.5.7 of RFC 7231), anything else with
      an empty 500. */
  function FailureReply(f: Failure): (r: Reply)
    ensures r.status == BadRequestStatus <==> f.BadRequest?
    ensures r.status == RequestTimeoutStatus <==> f == Timeout
    ensures r.status == InternalServerErrorStatus <==> !f.BadRequest? && f != Timeout
    ensures f.BadRequest? ==> r.body == Utf8(f.message) && Lookup(r.headers, "Content-Type") == Some(PlaintextContentType)
    ensures !f.BadRequest? ==> r.body == []
    ensures Lookup(r.headers, "Connection") == (if f == Timeout then Some("close") else None)
    ensures DistinctKeys(r.headers) && Lookup(r.headers, "Content-Length").None?
  {
    match f
    case BadRequest(message) =>
      Reply(BadRequestStatus, BadRequestReason, [("Content-Type", PlaintextContentType)], Utf8(message))
    case Timeout =>
      Reply(RequestTimeoutStatus, RequestTimeoutReason, [("Connection", "close")], [])
    case _ =>
      Reply(InternalServerErrorStatus, InternalServerErrorReason, [], [])
  }

  /** The bytes `send_response` writes for a reply, once the constructor of
      `HttpResponse` has set Content-Length. */
  function Sent(reply: Reply): seq<byte> {
    Serialize(reply.status, reply.reason, WithContentLength(reply.headers, reply.body), reply.body)
  }

  /** The reply `main` sends for the outcome of `recieve_request`. */
  function AnswerTo(request: Result<Request>, handler: Request -> Result<Reply>): Reply {
    match request
    case Err(f) => FailureReply(f)
    case Ok(request) =>
      match handler(request)
      case Ok(reply) => reply
      case Err(f) => FailureReply(f)
  }

  /** The reply `main` sends to the client whose bytes are `input[pos..]`. */
  function Answer(input: seq<byte>, pos: nat, handler: Request -> Result<Reply>): Reply
    requires pos <= |input|
  {
    AnswerTo(ReadRequest(input, pos).result, handler)
  }

  /** A request that cannot be read is answered without consulting the
      handler: with 400 and one of the framing messages, with 408, or with
      500 for a byte that is not text or a negative Content-Length. */
  lemma MalformedRequestAnswer(input: seq<byte>, pos: nat, handler: Request -> Result<Reply>,
                               other: Request -> Result<Reply>)
    requires pos <= |input| && ReadRequest(input, pos).result.Err?
    ensures Answer(input, pos, handler) == Answer(input, pos, other)
    ensures var r := Answer(input, pos, handler);
      && (r.status == BadRequestStatus || r.status == RequestTimeoutStatus || r.status == InternalServerErrorStatus)
      && (r.status == BadRequestStatus ==>
        r.body == Utf8(InvalidFirstLine) || r.body == Utf8(MissingColon) || r.body == Utf8(ContentLengthNotInteger))
  {
    var f := ReadRequest(input, pos).result.error;
    assert Answer(input, pos, handler) == FailureReply(f);
    assert Answer(input, pos, other) == FailureReply(f);
    RequestFailureReply(f);
  }

  /** The reply to a failure of reading a request. */
  lemma RequestFailureReply(f: Failure)
    requires RequestFailure(f)
    ensures var r := FailureReply(f);
      && (r.status == BadRequestStatus || r.status == RequestTimeoutStatus || r.status == InternalServerErrorStatus)
      && (r.status == BadRequestStatus ==>
        r.body == Utf8(InvalidFirstLine) || r.body == Utf8(MissingColon) || r.body == Utf8(ContentLengthNotInteger))
  {
    match f
    case BadRequest(message) =>
      assert message == InvalidFirstLine || message == MissingColon || message == ContentLengthNotInteger;
    case _ =>
  }

  /** A client that falls silent is told 408 and that the connection
      closes. */
  lemma TimeoutAnswer(input: seq<byte>, pos: nat, handler: Request -> Result<Reply>)
    requires pos <= |input| && ReadRequest(input, pos).result == Err(Timeout)
    ensures var r := Answer(input, pos, handler);
      && r.status == RequestTimeoutStatus
      && Lookup(WithContentLength(r.headers, r.body), "Connection") == Some("close")
      && Lookup(WithContentLength(r.headers, r.body), "Content-Length") == Some("0")
  {
  }

  /** Every failure reply is framed as section 3.3.2 of RFC 7230 requires:
      read back, it gives its status, its headers with Content-Length, and
      exactly its body, whatever bytes follow it (at least one when the body
      is empty, which `recv(0)` waits for). */
  lemma FailureReplyFramed(f: Failure, rest: seq<byte>)
    requires |FailureReply(f).body| <= SsizeMax && (FailureReply(f).body != [] || rest != [])
    ensures var r := FailureReply(f);
      ReadRequest(Sent(r) + rest, 0) ==
        Read(Ok(Request(HttpVersion, IntToDecimal(r.status), [], WithContentLength(r.headers, r.body), Some(r.body))),
             |Sent(r)|)
  {
    var r := FailureReply(f);
    FailureReplyWellFormed(f);
    ResponseFraming(r.status, r.reason, r.headers, r.body, rest);
  }

  lemma FailureReplyWellFormed(f: Failure)
    ensures var r := FailureReply(f);
      IsLineText(r.reason) && WellFormedFields(r.headers) && DistinctKeys(r.headers)
  {
    var r := FailureReply(f);
    match f
    case BadRequest(_) =>
      BadRequestReasonText();
      ContentTypeField();
      assert r.headers == [("Content-Type", PlaintextContentType)];
    case Timeout =>
      RequestTimeoutReasonText();
      ConnectionField();
      assert r.headers == [("Connection", "close")];
    case _ =>
      InternalServerErrorReasonText();
      assert r.headers == [];
  }

  lemma BadRequestReasonText()
    ensures IsLineText(BadRequestReason)
  {
  }

  lemma RequestTimeoutReasonText()
    ensures IsLineText(RequestTimeoutReason)
  {
  }

  lemma InternalServerErrorReasonText()
    ensures IsLineText(InternalServerErrorReason)
  {
  }

  lemma ContentTypeField()
    ensures WellFormedField("Content-Type", PlaintextContentType)
  {
  }

  lemma ConnectionField()
    ensures WellFormedField("Connection", "close")
  {
  }

  /** Builds the response's header dictionary and the `HttpResponse`, and
      sends it. */
  method Respond(conn: ClientConnection, reply: Reply)
    modifies conn`output
    ensures conn.output == old(conn.output) + Sent(reply)
  {
    var headers := new HeaderDict(reply.headers);
    var response := new HttpResponse(reply.status, reply.reason, headers, reply.body);
    conn.SendResponse(response);
  }

  /** The body of the accept loop for one client. */
  method HandleConnection(conn: ClientConnection, handler: Request -> Result<Reply>)
    requires conn.Valid()
    modifies conn
    ensures conn.Valid() && conn.closed
    ensures conn.pos == ReadRequest(conn.input, old(conn.pos)).next
    ensures conn.output == old(conn.output) + Sent(Answer(conn.input, old(conn.pos), handler))
  {
    var request := conn.ReceiveRequest();
    var reply: Reply;
    if request.Ok? {
      var handled := handler(request.value);
      reply := if handled.Ok? then handled.value else FailureReply(handled.error);
    } else {
      reply := FailureReply(request.error);
    }
    assert reply == AnswerTo(request, handler);
    Respond(conn, reply);
    conn.Close();
  }
}
