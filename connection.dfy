/** `ClientConnection`, `HttpRequest` and `HttpResponse`: the framing of
    requests read from a client socket (sections 3.1.1, 3.2 and 3.3.2 of
    RFC 7230) and of responses written to it (section 3.1.2 of RFC 7230).

    The socket is modelled by the bytes the client has sent (`input`), a
    cursor over them (`pos`) and the bytes written back (`output`). All of
    the client's bytes are taken to have arrived: `recv(n)` returns as many
    of the remaining bytes as it may, and when none remain the client is
    silent and the socket's timeout fires. */
module Connection {
  import opened Basics
  import opened Seqs
  import opened Octets
  import opened Dicts
  import opened Numbers
  import opened Grammar

  const HttpVersion := "HTTP/1.1"
  const InvalidFirstLine := "Invalid first request line"
  const ContentLengthNotInteger := "Content-Length isn't integer"

  /** `HttpRequest`: what `recieve_request` returns. */
  datatype Request = Request(
    verb: string,
    path: string,
    query: Dict<string, Option<string>>,
    headers: Dict<string, string>,
    body: Option<seq<byte>>)

  /** The outcome of reading from the socket: what was read, or the failure
      raised, and where the cursor stands afterwards. */
  datatype Read<+T> = Read(result: Result<T>, next: nat)

  // ---------------------------------------------------------------------
  // Reading, as functions of the received bytes and the cursor

  /** The range of sizes `recv` can convert: its argument is converted to a
      C `ssize_t`, 64 bits wide on the platforms the server runs on. */
  const SsizeMax := 0x7FFF_FFFF_FFFF_FFFF
  const SsizeMin := -0x8000_0000_0000_0000

  /** `socket.recv(n)` with the cursor at `pos`, on a socket with a timeout:
      the size is converted to `ssize_t` and refused when negative first, then the socket is waited on until it is
      readable (which it never becomes once the client's bytes are used up),
      and only then are at most `n` bytes taken. */
  function Recv(input: seq<byte>, pos: nat, n: int): (r: Read<seq<byte>>)
    requires pos <= |input|
    ensures pos <= r.next <= |input|
    ensures n < SsizeMin || n > SsizeMax ==> r == Read(Err(OverflowError), pos)
    ensures SsizeMin <= n < 0 ==> r == Read(Err(ValueError), pos)
    ensures 0 <= n <= SsizeMax && pos == |input| ==> r == Read(Err(Timeout), pos)
    ensures n == 0 && pos < |input| ==> r == Read(Ok([]), pos)
    ensures 0 < n <= SsizeMax && pos < |input| ==> r.result.Ok? && 1 <= |r.result.value| <= n
    ensures r.result.Ok? ==> input[pos..r.next] == r.result.value
    ensures r.result.Ok? && r.next < |input| ==> |r.result.value| == n
  {
    if n < SsizeMin || n > SsizeMax then Read(Err(OverflowError), pos)
    else if n < 0 then Read(Err(ValueError), pos)
    else if pos == |input| then Read(Err(Timeout), pos)
    else
      var end := if pos + n <= |input| then pos + n else |input|;
      Read(Ok(input[pos..end]), end)
  }

  /** `recv(1)` takes the next byte, or times out at the end of the input. */
  lemma RecvOne(input: seq<byte>, pos: nat)
    requires pos <= |input|
    ensures Recv(input, pos, 1) ==
      if pos == |input| then Read(Err(Timeout), pos) else Read(Ok([input[pos]]), pos + 1)
  {
    if pos < |input| {
      assert input[pos..pos + 1] == [input[pos]];
    }
  }

  /** The failures reading a line can raise: the client fell silent, or
      sent a byte that is not text. */
  predicate LineFailure(f: Failure) {
    f == Timeout || f == UnicodeDecodeError
  }

  /** ... and reading the header lines, which may also lack a colon. */
  predicate HeadersFailure(f: Failure) {
    LineFailure(f) || f == BadRequest(MissingColon)
  }

  /** ... and reading a whole request. `ValueError` and `OverflowError`
      come from a Content-Length that `recv` refuses as a size. */
  predicate RequestFailure(f: Failure) {
    || HeadersFailure(f)
    || f == ValueError
    || f == OverflowError
    || f == BadRequest(InvalidFirstLine)
    || f == BadRequest(ContentLengthNotInteger)
  }

  /** `input[i - 2..i]` is CRLF, and lies inside the line begun at `start`. */
  predicate EndsLine(input: seq<byte>, start: nat, i: nat)
    requires i <= |input|
  {
    start + 2 <= i && input[i - 2] == CR && input[i - 1] == LF
  }

  /** The rest of `recieve_line` once the bytes `input[start..i]` have been
      received one at a time: each further byte is received and decoded
      until the text ends in CR LF. */
  function ReadLineFrom(input: seq<byte>, start: nat, i: nat): (r: Read<string>)
    requires start <= i <= |input| && IsAsciiBytes(input[start..i])
    requires forall j :: start + 2 <= j < i ==> !EndsLine(input, start, j)
    ensures i <= r.next <= |input|
    ensures r.result.Ok? ==> start + 2 <= r.next
    ensures r.result.Err? ==> LineFailure(r.result.error)
    decreases |input| - i
  {
    if EndsLine(input, start, i) then
      var bytes := input[start..i - 2];
      assert forall k :: 0 <= k < |bytes| ==> bytes[k] == input[start..i][k];
      Read(Ok(DecodeAscii(bytes).value), i)
    else if i == |input| then Read(Err(Timeout), i)
    else if input[i] >= 128 then Read(Err(UnicodeDecodeError), i + 1)
    else
      assert input[start..i + 1] == input[start..i] + [input[i]];
      ReadLineFrom(input, start, i + 1)
  }

  /** One byte more of a line that has not ended: the line goes on over an
      ASCII byte, and stops at the end of the input or at a byte that is
      not ASCII. */
  lemma ReadLineFromStep(input: seq<byte>, start: nat, i: nat)
    requires start <= i <= |input| && IsAsciiBytes(input[start..i])
    requires forall j :: start + 2 <= j < i ==> !EndsLine(input, start, j)
    requires !EndsLine(input, start, i)
    ensures i == |input| ==> ReadLineFrom(input, start, i) == Read(Err(Timeout), i)
    ensures i < |input| && input[i] >= 128 ==> ReadLineFrom(input, start, i) == Read(Err(UnicodeDecodeError), i + 1)
    ensures i < |input| && input[i] < 128 ==>
      && IsAsciiBytes(input[start..i + 1])
      && (forall j :: start + 2 <= j < i + 1 ==> !EndsLine(input, start, j))
      && ReadLineFrom(input, start, i) == ReadLineFrom(input, start, i + 1)
  {
    if i < |input| {
      assert input[start..i + 1] == input[start..i] + [input[i]];
    }
  }

  /** What `ReadLineFrom` reads: the text before the first CR LF after
      `start`, or the failure met before it. */
  lemma ReadLineFromMeaning(input: seq<byte>, start: nat, i: nat)
    requires start <= i <= |input| && IsAsciiBytes(input[start..i])
    requires forall j :: start + 2 <= j < i ==> !EndsLine(input, start, j)
    ensures var r := ReadLineFrom(input, start, i);
      && (r.result.Ok? ==>
        && EndsLine(input, start, r.next)
        && (forall j :: start + 2 <= j < r.next ==> !EndsLine(input, start, j))
        && input[start..r.next] == Utf8(r.result.value) + CRLF)
      && (r.result.Err? ==>
        || (&& r.result.error == Timeout && r.next == |input|
            && IsAsciiBytes(input[start..])
            && (forall j :: start + 2 <= j <= |input| ==> !EndsLine(input, start, j)))
        || (&& r.result.error == UnicodeDecodeError && i < r.next
            && IsAsciiBytes(input[start..r.next - 1]) && input[r.next - 1] >= 128
            && (forall j :: start + 2 <= j < r.next ==> !EndsLine(input, start, j))))
  {
    ReadLineFromOk(input, start, i);
    ReadLineFromFailure(input, start, i);
  }

  /** A line read by `ReadLineFrom` ends at the first CR LF after `start`
      and is the text before it. */
  lemma {:induction false} ReadLineFromOk(input: seq<byte>, start: nat, i: nat)
    requires start <= i <= |input| && IsAsciiBytes(input[start..i])
    requires forall j :: start + 2 <= j < i ==> !EndsLine(input, start, j)
    ensures var r := ReadLineFrom(input, start, i);
      r.result.Ok? ==>
        && EndsLine(input, start, r.next)
        && (forall j :: start + 2 <= j < r.next ==> !EndsLine(input, start, j))
        && input[start..r.next] == Utf8(r.result.value) + CRLF
    decreases |input| - i
  {
    if EndsLine(input, start, i) {
      var bytes := input[start..i - 2];
      assert forall k :: 0 <= k < |bytes| ==> bytes[k] == input[start..i][k];
      assert input[start..i] == bytes + CRLF;
    } else if i < |input| && input[i] < 128 {
      assert input[start..i + 1] == input[start..i] + [input[i]];
      ReadLineFromOk(input, start, i + 1);
    }
  }

  /** The failures of `ReadLineFrom`: a time-out after text only and no
      CR LF, or the first byte that is not text, before any CR LF. */
  lemma {:induction false} ReadLineFromFailure(input: seq<byte>, start: nat, i: nat)
    requires start <= i <= |input| && IsAsciiBytes(input[start..i])
    requires forall j :: start + 2 <= j < i ==> !EndsLine(input, start, j)
    ensures var r := ReadLineFrom(input, start, i);
      r.result.Err? ==>
        || (&& r.result.error == Timeout && r.next == |input|
            && IsAsciiBytes(input[start..])
            && (forall j :: start + 2 <= j <= |input| ==> !EndsLine(input, start, j)))
        || (&& r.result.error == UnicodeDecodeError && i < r.next
            && IsAsciiBytes(input[start..r.next - 1]) && input[r.next - 1] >= 128
            && (forall j :: start + 2 <= j < r.next ==> !EndsLine(input, start, j)))
    decreases |input| - i
  {
    if EndsLine(input, start, i) {
    } else if i == |input| {
      assert input[start..] == input[start..i];
    } else if input[i] >= 128 {
      assert input[start..i + 1 - 1] == input[start..i];
    } else {
      assert input[start..i + 1] == input[start..i] + [input[i]];
      ReadLineFromFailure(input, start, i + 1);
    }
  }

  /** When the bytes from `start` on are text without CR or LF up to a
      CR LF ending at `end`, the rest of the line is read as that text. */
  lemma {:induction false} ReadLineFromUpTo(input: seq<byte>, start: nat, i: nat, end: nat)
    requires start <= i <= end <= |input| && start + 2 <= end
    requires forall k :: start <= k < end - 2 ==> input[k] < 128 && input[k] != CR && input[k] != LF
    requires input[end - 2] == CR && input[end - 1] == LF
    requires IsAsciiBytes(input[start..i])
    requires forall j :: start + 2 <= j < i ==> !EndsLine(input, start, j)
    ensures ReadLineFrom(input, start, i) == Read(Ok(DecodeAscii(input[start..end - 2]).value), end)
    decreases |input| - i
  {
    if i < end {
      assert !EndsLine(input, start, i) by {
        if start + 2 <= i {
          assert input[i - 1] != LF;
        }
      }
      assert input[start..i + 1] == input[start..i] + [input[i]];
      ReadLineFromUpTo(input, start, i + 1, end);
    }
  }

  /** The byte-level reading of `input[pos..]` starting with `bytes` and CR LF. */
  lemma LineBytesAt(input: seq<byte>, pos: nat, bytes: seq<byte>)
    requires IsAsciiBytes(bytes) && CR !in bytes && LF !in bytes
    requires pos + |bytes| + 2 <= |input| && input[pos..pos + |bytes| + 2] == bytes + CRLF
    ensures forall k :: pos <= k < pos + |bytes| ==> input[k] < 128 && input[k] != CR && input[k] != LF
    ensures input[pos + |bytes|] == CR && input[pos + |bytes| + 1] == LF
    ensures input[pos..pos + |bytes|] == bytes
  {
    var end := pos + |bytes| + 2;
    forall k | pos <= k < end - 2
      ensures input[k] < 128 && input[k] != CR && input[k] != LF
    {
      assert input[k] == input[pos..end][k - pos] == bytes[k - pos];
    }
    assert input[pos..end][|bytes|] == (bytes + CRLF)[|bytes|];
    assert input[pos..end][|bytes| + 1] == (bytes + CRLF)[|bytes| + 1];
    assert input[pos..end - 2] == input[pos..end][..|bytes|];
  }

  /** `recieve_line()` with the cursor at `pos`: the text up to the first
      CRLF, which is consumed with it. */
  function ReadLine(input: seq<byte>, pos: nat): (r: Read<string>)
    requires pos <= |input|
    ensures pos <= r.next <= |input|
    ensures r.result.Ok? ==> r.next >= pos + 2
    ensures r.result.Err? ==> LineFailure(r.result.error)
  {
    assert input[pos..pos] == [];
    ReadLineFrom(input, pos, pos)
  }

  /** A line read is the text before the first CR LF, which is consumed
      with it; failing that, the client fell silent (time-out) before any
      CR LF and after text only, or sent a byte that is not text, the first
      one, before any CR LF. */
  lemma ReadLineMeaning(input: seq<byte>, pos: nat)
    requires pos <= |input|
    ensures var r := ReadLine(input, pos);
      && (r.result.Ok? ==>
        && input[pos..r.next] == Utf8(r.result.value) + CRLF
        && (forall j :: pos + 2 <= j < r.next ==> !EndsLine(input, pos, j)))
      && (r.result.Err? ==>
        || (&& r.result.error == Timeout && r.next == |input|
            && IsAsciiBytes(input[pos..])
            && (forall j :: pos + 2 <= j <= |input| ==> !EndsLine(input, pos, j)))
        || (&& r.result.error == UnicodeDecodeError && pos < r.next
            && IsAsciiBytes(input[pos..r.next - 1]) && input[r.next - 1] >= 128
            && (forall j :: pos + 2 <= j < r.next ==> !EndsLine(input, pos, j))))
  {
    assert input[pos..pos] == [];
    ReadLineFromMeaning(input, pos, pos);
  }

  /** Any text before the first CR LF is read as the line, CR or LF bytes
      on their own included: `a LF b CR LF` is the line `a LF b`. */
  lemma ReadLineUpTo(input: seq<byte>, pos: nat, end: nat)
    requires pos + 2 <= end <= |input| && EndsLine(input, pos, end)
    requires IsAsciiBytes(input[pos..end - 2])
    requires forall j :: pos + 2 <= j < end ==> !EndsLine(input, pos, j)
    ensures ReadLine(input, pos) == Read(Ok(DecodeAscii(input[pos..end - 2]).value), end)
  {
    assert input[pos..pos] == [];
    ReadLineFromTo(input, pos, pos, end);
  }

  /** The rest of a line whose first CR LF ends at `end`, after text only. */
  lemma {:induction false} ReadLineFromTo(input: seq<byte>, start: nat, i: nat, end: nat)
    requires start <= i <= end <= |input| && EndsLine(input, start, end)
    requires IsAsciiBytes(input[start..end - 2])
    requires forall j :: start + 2 <= j < end ==> !EndsLine(input, start, j)
    requires IsAsciiBytes(input[start..i])
    requires forall j :: start + 2 <= j < i ==> !EndsLine(input, start, j)
    ensures ReadLineFrom(input, start, i) == Read(Ok(DecodeAscii(input[start..end - 2]).value), end)
    decreases end - i
  {
    if i < end {
      assert input[i] < 128 by {
        if i < end - 2 {
          assert input[i] == input[start..end - 2][i - start];
        }
      }
      assert !EndsLine(input, start, i);
      assert input[start..i + 1] == input[start..i] + [input[i]];
      ReadLineFromTo(input, start, i + 1, end);
    }
  }

  /** Text without CR or LF, sent with its CR LF, is read back as itself. */
  lemma ReadLineOf(input: seq<byte>, pos: nat, line: string)
    requires IsLineText(line) && pos + |Utf8(line)| + 2 <= |input|
    requires input[pos..pos + |Utf8(line)| + 2] == Utf8(line) + CRLF
    ensures ReadLine(input, pos) == Read(Ok(line), pos + |line| + 2)
  {
    var bytes := Utf8(line);
    var end := pos + |bytes| + 2;
    LineTextBytes(line);
    Utf8Ascii(line);
    LineBytesAt(input, pos, bytes);
    assert input[pos..pos] == [];
    ReadLineFromUpTo(input, pos, pos, end);
  }

  /** The header-reading loop of `recieve_request`, at the top of an
      iteration: the next line is read. */
  function ReadHeaders(input: seq<byte>, pos: nat, headers: Dict<string, string>): (r: Read<Dict<string, string>>)
    requires pos <= |input|
    ensures pos <= r.next <= |input|
    ensures r.result.Err? ==> HeadersFailure(r.result.error)
    decreases |input| - pos, 0
  {
    var line := ReadLine(input, pos);
    match line.result
    case Err(e) => Read(Err(e), line.next)
    case Ok(text) => HeaderLine(input, text, line.next, headers)
  }

  /** The same loop once a line has been read: the empty line ends the
      headers, any other is parsed and stored, and the loop goes on. */
  function HeaderLine(input: seq<byte>, text: string, pos: nat, headers: Dict<string, string>): (r: Read<Dict<string, string>>)
    requires pos <= |input|
    ensures pos <= r.next <= |input|
    ensures r.result.Err? ==> HeadersFailure(r.result.error)
    decreases |input| - pos, 1
  {
    if text == "" then Read(Ok(headers), pos)
    else
      match ParseHeader(text)
      case Err(e) => Read(Err(e), pos)
      case Ok((name, value)) => ReadHeaders(input, pos, Set(headers, name, value))
  }

  /** `recieve_request()` with the cursor at `pos`. */
  function ReadRequest(input: seq<byte>, pos: nat): (r: Read<Request>)
    requires pos <= |input|
    ensures pos <= r.next <= |input|
    ensures r.result.Err? ==> RequestFailure(r.result.error)
  {
    var first := ReadLine(input, pos);
    match first.result
    case Err(e) => Read(Err(e), first.next)
    case Ok(line) =>
      var tokens := Split(line, " ");
      if |tokens| < 2 then Read(Err(BadRequest(InvalidFirstLine)), first.next)
      else
        var (path, query) := RequestPath(tokens[1]);
        var fields := ReadHeaders(input, first.next, []);
        match fields.result
        case Err(e) => Read(Err(e), fields.next)
        case Ok(headers) =>
          match Lookup(headers, "Content-Length")
          case None => Read(Ok(Request(tokens[0], path, query, headers, None)), fields.next)
          case Some(contentLength) =>
            match TryParseInt(contentLength, ContentLengthNotInteger)
            case Err(e) => Read(Err(e), fields.next)
            case Ok(length) =>
              var body := Recv(input, fields.next, length);
              match body.result
              case Err(e) => Read(Err(e), body.next)
              case Ok(bytes) => Read(Ok(Request(tokens[0], path, query, headers, Some(bytes))), body.next)
  }

  // ---------------------------------------------------------------------
  // Writing

  /** `headers[k] = len(body)` in the constructor of `HttpResponse`: the
      length is formatted in decimal when the header is sent. */
  function WithContentLength(headers: Dict<string, string>, body: seq<byte>): (r: Dict<string, string>)
    ensures Lookup(r, "Content-Length") == Some(NatToDecimal(|body|))
    ensures forall k :: k != "Content-Length" ==> Lookup(r, k) == Lookup(headers, k)
    ensures Lookup(headers, "Content-Length").Some? ==> Keys(r) == Keys(headers)
    ensures Lookup(headers, "Content-Length").None? ==> r == headers + [("Content-Length", NatToDecimal(|body|))]
    ensures DistinctKeys(headers) ==> DistinctKeys(r)
  {
    Set(headers, "Content-Length", NatToDecimal(|body|))
  }

  /** The status line without its CRLF. */
  function StatusLine(status: int, reason: string): string {
    HttpVersion + " " + IntToDecimal(status) + " " + reason
  }

  /** One header line as sent, CRLF included. */
  function FieldLineBytes(field: (string, string)): seq<byte> {
    Utf8(FieldText(field) + "\r\n")
  }

  /** The header lines of a response, in the dictionary's order. */
  function HeaderBlock(headers: Dict<string, string>): seq<byte> {
    if headers == [] then []
    else HeaderBlock(headers[..|headers| - 1]) + FieldLineBytes(headers[|headers| - 1])
  }

  /** A message on the wire: its start line, its header lines, the empty
      line, and its body. */
  function Message(startLine: string, headers: Dict<string, string>, body: seq<byte>): seq<byte> {
    Utf8(startLine + "\r\n") + HeaderBlock(headers) + CRLF + body
  }

  /** Everything `send_response` writes for a response. */
  function Serialize(status: int, reason: string, headers: Dict<string, string>, body: seq<byte>): seq<byte> {
    Message(StatusLine(status, reason), headers, body)
  }

  // ---------------------------------------------------------------------
  // The objects

  /** A Python dictionary of headers, shared by reference: the handler that
      builds it and the response that keeps it see the same object. */
  class HeaderDict {
    var items: Dict<string, string>

    constructor(items: Dict<string, string>)
      ensures this.items == items
    {
      this.items := items;
    }
  }

  /** `HttpResponse`. */
  class HttpResponse {
    const status: int
    const reason: string
    const headers: HeaderDict
    const body: seq<byte>

    /** Stores its arguments and sets `Content-Length` in the caller's
        header dictionary, which the response keeps. */
    constructor(status: int, reason: string, headers: HeaderDict, body: seq<byte>)
      modifies headers
      ensures this.status == status && this.reason == reason && this.headers == headers && this.body == body
      ensures headers.items == WithContentLength(old(headers.items), body)
    {
      this.status := status;
      this.reason := reason;
      this.headers := headers;
      this.body := body;
      new;
      headers.items := Set(headers.items, "Content-Length", NatToDecimal(|body|));
    }
  }

  /** `ClientConnection`, over the bytes its client sends. */
  class ClientConnection {
    const input: seq<byte>
    var pos: nat
    var output: seq<byte>
    var closed: bool

    predicate Valid()
      reads this
    {
      pos <= |input|
    }

    constructor(input: seq<byte>)
      ensures Valid() && this.input == input && pos == 0 && output == [] && !closed
    {
      this.input := input;
      pos := 0;
      output := [];
      closed := false;
    }

    /** `self.__socket.recv(n)`. */
    method Receive(n: int) returns (r: Result<seq<byte>>)
      requires Valid()
      modifies this`pos
      ensures Valid() && Read(r, pos) == Recv(input, old(pos), n)
    {
      if n < SsizeMin || n > SsizeMax {
        return Err(OverflowError);
      } else if n < 0 {
        return Err(ValueError);
      } else if pos == |input| {
        return Err(Timeout);
      }
      var end := if pos + n <= |input| then pos + n else |input|;
      r := Ok(input[pos..end]);
      pos := end;
    }

    /** The header loop of `send_response`: one line per header, in the
        dictionary's order. */
    method SendHeaderLines(headers: Dict<string, string>)
      modifies this`output
      ensures output == old(output) + HeaderBlock(headers)
    {
      ghost var start := output;
      for i := 0 to |headers|
        invariant output == start + HeaderBlock(headers[..i])
      {
        HeaderBlockPrefix(headers, i);
        Send(FieldLineBytes(headers[i]));
      }
      assert headers[..|headers|] == headers;
    }

    /** `self.__socket.send(data)`, every byte of it. */
    method Send(data: seq<byte>)
      modifies this`output
      ensures output == old(output) + data
    {
      output := output + data;
    }

    /** `close()`. */
    method Close()
      modifies this`closed
      ensures closed
    {
      closed := true;
    }

    /** `recieve_line()`: receives one byte at a time until the text
        received ends in CR LF, and returns the text before it. */
    method ReceiveLine() returns (r: Result<string>)
      requires Valid()
      modifies this`pos
      ensures Valid() && Read(r, pos) == ReadLine(input, old(pos))
    {
      ghost var start := pos;
      var text: string := [];
      assert input[start..pos] == [];
      while |text| < 2 || text[|text| - 2..] != "\r\n"
        invariant LineSoFar(input, start, pos, text)
        invariant ReadLine(input, start) == ReadLineFrom(input, start, pos)
        decreases |input| - pos
      {
        TextEndsLine(input, start, pos, text);
        LineStep(input, start, pos, text);
        RecvOne(input, pos);
        var received := Receive(1);
        if received.Err? {
          return Err(received.error);
        }
        var b := received.value[0];
        if b >= 128 {
          return Err(UnicodeDecodeError);
        }
        text := text + [(b as int) as char];
      }
      TextEndsLine(input, start, pos, text);
      LineSoFarEnd(input, start, pos, text);
      r := Ok(text[..|text| - 2]);
    }

    /** `recieve_request()`. */
    method ReceiveRequest() returns (r: Result<Request>)
      requires Valid()
      modifies this`pos
      ensures Valid() && Read(r, pos) == ReadRequest(input, old(pos))
    {
      var firstLine := ReceiveLine();
      if firstLine.Err? {
        return Err(firstLine.error);
      }
      var tokens := Split(firstLine.value, " ");
      if |tokens| < 2 {
        return Err(BadRequest(InvalidFirstLine));
      }
      var requestMethod, requestPath := tokens[0], tokens[1];
      var path, query := ParseRequestPath(requestPath);
      ghost var headersStart := pos;
      var headers: Dict<string, string> := [];
      var line := ReceiveLine();
      if line.Err? {
        return Err(line.error);
      }
      while line.value != ""
        invariant Valid() && line.Ok? && headersStart <= pos
        invariant ReadHeaders(input, headersStart, []) == HeaderLine(input, line.value, pos, headers)
        decreases |input| - pos
      {
        var header := ParseHeader(line.value);
        if header.Err? {
          return Err(header.error);
        }
        headers := Set(headers, header.value.0, header.value.1);
        line := ReceiveLine();
        if line.Err? {
          return Err(line.error);
        }
      }
      var body: Option<seq<byte>> := None;
      var contentLength := Lookup(headers, "Content-Length");
      if contentLength.Some? {
        var length := TryParseInt(contentLength.value, ContentLengthNotInteger);
        if length.Err? {
          return Err(length.error);
        }
        var received := Receive(length.value);
        if received.Err? {
          return Err(received.error);
        }
        body := Some(received.value);
      }
      r := Ok(Request(requestMethod, path, query, headers, body));
    }

    /** `send_response(response)`: the status line, each header line in the
        dictionary's order, the empty line, then the body. */
    method SendResponse(response: HttpResponse)
      modifies this`output
      ensures output == old(output) + Serialize(response.status, response.reason, response.headers.items, response.body)
    {
      ghost var before := output;
      var firstLine := StatusLine(response.status, response.reason) + "\r\n";
      Send(Utf8(firstLine));
      var headers := response.headers.items;
      SendHeaderLines(headers);
      Send(CRLF);
      Send(response.body);
      Reassociate(before, Utf8(firstLine), HeaderBlock(headers), CRLF);
    }
  }

  /** The line ends at `i`: the text before the CR LF is the bytes read as
      characters one by one. */
  lemma ReadLineFromEnd(input: seq<byte>, start: nat, i: nat, line: string)
    requires start <= i <= |input| && IsAsciiBytes(input[start..i])
    requires forall j :: start + 2 <= j < i ==> !EndsLine(input, start, j)
    requires EndsLine(input, start, i) && |line| == i - 2 - start
    requires forall k :: 0 <= k < |line| ==> line[k] as int == input[start + k] as int
    ensures ReadLineFrom(input, start, i) == Read(Ok(line), i)
  {
    var lineBytes := input[start..i - 2];
    assert IsAsciiBytes(lineBytes) by {
      forall k | 0 <= k < |lineBytes| ensures lineBytes[k] < 128 {
        assert lineBytes[k] == input[start..i][k];
      }
    }
    DecodeAsciiChars(lineBytes, line);
  }

  /** The header lines sent by the loop of `send_response` after its
      `i`-th iteration. */
  lemma HeaderBlockPrefix(headers: Dict<string, string>, i: nat)
    requires i < |headers|
    ensures HeaderBlock(headers[..i + 1]) == HeaderBlock(headers[..i]) + FieldLineBytes(headers[i])
  {
    assert headers[..i + 1][..i] == headers[..i];
  }

  /** The loop of `recieve_line` has received `input[start..pos]`, all of
      it ASCII and without an earlier line end, as the characters `text`. */
  predicate LineSoFar(input: seq<byte>, start: nat, pos: nat, text: string) {
    && start <= pos <= |input| && |text| == pos - start
    && IsAsciiBytes(input[start..pos])
    && (forall k :: 0 <= k < |text| ==> text[k] as int == input[start + k] as int)
    && (forall j :: start + 2 <= j < pos ==> !EndsLine(input, start, j))
  }

  /** The text ends in CR LF exactly when the bytes end the line. */
  lemma TextEndsLine(input: seq<byte>, start: nat, pos: nat, text: string)
    requires LineSoFar(input, start, pos, text)
    ensures (|text| >= 2 && text[|text| - 2..] == "\r\n") <==> EndsLine(input, start, pos)
  {
    if |text| >= 2 {
      assert text[|text| - 2..] == [text[|text| - 2], text[|text| - 1]];
      assert text[|text| - 2] as int == input[pos - 2] as int;
      assert text[|text| - 1] as int == input[pos - 1] as int;
    }
  }

  /** One more ASCII byte received, one more character of text. */
  lemma LineSoFarStep(input: seq<byte>, start: nat, pos: nat, text: string)
    requires LineSoFar(input, start, pos, text) && !EndsLine(input, start, pos)
    requires pos < |input| && input[pos] < 128
    ensures LineSoFar(input, start, pos + 1, text + [(input[pos] as int) as char])
  {
    assert input[start..pos + 1] == input[start..pos] + [input[pos]];
  }

  /** What the next byte does to a line not yet ended: at the end of the
      input the read times out, a byte of 128 or above fails to decode, and
      any other byte extends the text. */
  lemma LineStep(input: seq<byte>, start: nat, pos: nat, text: string)
    requires LineSoFar(input, start, pos, text) && !EndsLine(input, start, pos)
    requires ReadLine(input, start) == ReadLineFrom(input, start, pos)
    ensures pos == |input| ==> ReadLine(input, start) == Read(Err(Timeout), pos)
    ensures pos < |input| && input[pos] >= 128 ==> ReadLine(input, start) == Read(Err(UnicodeDecodeError), pos + 1)
    ensures pos < |input| && input[pos] < 128 ==>
      && LineSoFar(input, start, pos + 1, text + [(input[pos] as int) as char])
      && ReadLine(input, start) == ReadLineFrom(input, start, pos + 1)
  {
    ReadLineFromStep(input, start, pos);
    if pos < |input| && input[pos] < 128 {
      LineSoFarStep(input, start, pos, text);
    }
  }

  /** The line has ended: its text is the received text without CR LF. */
  lemma LineSoFarEnd(input: seq<byte>, start: nat, pos: nat, text: string)
    requires LineSoFar(input, start, pos, text) && EndsLine(input, start, pos)
    ensures ReadLineFrom(input, start, pos) == Read(Ok(text[..|text| - 2]), pos)
  {
    ReadLineFromEnd(input, start, pos, text[..|text| - 2]);
  }

  /** Bytes read one to one as characters are their ASCII decoding. */
  lemma DecodeAsciiChars(b: seq<byte>, text: string)
    requires IsAsciiBytes(b) && |text| == |b|
    requires forall k :: 0 <= k < |b| ==> text[k] as int == b[k] as int
    ensures DecodeAscii(b) == Some(text)
  {
    var decoded := DecodeAscii(b).value;
    Utf8Ascii(decoded);
    assert decoded == text;
  }
}
