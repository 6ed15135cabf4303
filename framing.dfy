/** What the framing of `ClientConnection` guarantees: a message written as
    section 3 of RFC 7230 lays it out (start line, header lines, empty line,
    a body of Content-Length bytes) is read back field for field, and a
    malformed one is refused with the failure the server reports. */
module Framing {
  import opened Basics
  import opened Seqs
  import opened Octets
  import opened Dicts
  import opened Numbers
  import opened Grammar
  import opened Connection

  lemma OccursAtSplit(input: seq<byte>, pos: nat, x: seq<byte>, y: seq<byte>)
    requires OccursAt(input, x + y, pos)
    ensures OccursAt(input, x, pos) && OccursAt(input, y, pos + |x|)
  {
    var whole := input[pos..pos + |x| + |y|];
    assert input[pos..pos + |x|] == whole[..|x|];
    assert input[pos + |x|..pos + |x| + |y|] == whole[|x|..];
  }

  lemma Utf8Crlf()
    ensures Utf8("\r\n") == CRLF
  {
    assert Utf8("\r\n") == EncodeChar('\r') + Utf8("\n");
    assert Utf8("\n") == EncodeChar('\n') + Utf8("");
  }

  lemma LineTextAppend(a: string, b: string)
    requires IsLineText(a) && IsLineText(b)
    ensures IsLineText(a + b)
  {
    forall i | 0 <= i < |a + b|
      ensures (a + b)[i] as int < 128 && (a + b)[i] != '\r' && (a + b)[i] != '\n'
    {
      if i < |a| {
        assert (a + b)[i] == a[i];
      } else {
        assert (a + b)[i] == b[i - |a|];
      }
    }
  }

  /** A line of text sent with its CR LF. */
  lemma LineBytes(line: string)
    requires IsLineText(line)
    ensures Utf8(line + "\r\n") == Utf8(line) + CRLF && |Utf8(line)| == |line|
  {
    Utf8Append(line, "\r\n");
    Utf8Crlf();
    Utf8Ascii(line);
  }

  /** The header block is also the first header line followed by the
      block of the others. */
  lemma {:induction false} HeaderBlockCons(field: (string, string), fields: Dict<string, string>)
    ensures HeaderBlock([field] + fields) == FieldLineBytes(field) + HeaderBlock(fields)
    decreases |fields|
  {
    var all := [field] + fields;
    if fields == [] {
      assert all[..0] == [];
      assert HeaderBlock(all) == HeaderBlock([]) + FieldLineBytes(field);
    } else {
      var init, last := fields[..|fields| - 1], fields[|fields| - 1];
      assert all[..|all| - 1] == [field] + init;
      assert all[|all| - 1] == last;
      var head, middle, tail := FieldLineBytes(field), HeaderBlock(init), FieldLineBytes(last);
      calc {
        HeaderBlock(all);
        HeaderBlock([field] + init) + tail;
        { HeaderBlockCons(field, init); }
        head + middle + tail;
        head + (middle + tail);
        head + HeaderBlock(fields);
      }
    }
  }

  /** A well-formed header line is one line of text. */
  lemma FieldLine(field: (string, string))
    requires WellFormedField(field.0, field.1)
    ensures FieldLineBytes(field) == Utf8(FieldText(field)) + CRLF
    ensures IsLineText(FieldText(field)) && |FieldLineBytes(field)| == |FieldText(field)| + 2
  {
    var text := FieldText(field);
    LineTextAppend(field.0, ": ");
    LineTextAppend(field.0 + ": ", field.1);
    LineBytes(text);
  }

  /** A well-formed header line is read as its text. */
  lemma ReadFieldLine(input: seq<byte>, pos: nat, field: (string, string))
    requires WellFormedField(field.0, field.1)
    requires OccursAt(input, FieldLineBytes(field), pos)
    ensures ReadLine(input, pos) == Read(Ok(FieldText(field)), pos + |FieldLineBytes(field)|)
  {
    FieldLine(field);
    ReadLineOf(input, pos, FieldText(field));
  }

  /** ... and that text parses back to the field. */
  lemma ParseFieldText(field: (string, string))
    requires WellFormedField(field.0, field.1)
    ensures FieldText(field) != "" && ParseHeader(FieldText(field)) == Ok(field)
  {
    ParseHeaderLine(field.0, field.1);
    assert FieldText(field)[|field.0|] == ':';
  }

  /** Header lines each of which is well formed. */
  predicate WellFormedFields(fields: Dict<string, string>) {
    forall i :: 0 <= i < |fields| ==> WellFormedField(fields[i].0, fields[i].1)
  }

  /** The header loop of `recieve_request` reads a header block and the
      empty line after it as the dictionary its fields fill in order, and
      stops right after the empty line. */
  lemma {:induction false} ReadHeadersOf(input: seq<byte>, pos: nat, headers: Dict<string, string>,
                                         fields: Dict<string, string>, end: nat)
    requires WellFormedFields(fields)
    requires OccursAt(input, HeaderBlock(fields) + CRLF, pos) && end == pos + |HeaderBlock(fields)| + 2
    ensures ReadHeaders(input, pos, headers) == Read(Ok(SetAll(headers, fields)), end)
    decreases |fields|
  {
    if fields == [] {
      ReadHeadersEnd(input, pos, headers, end);
    } else {
      var field, rest := fields[0], fields[1..];
      var next := HeaderBlockAt(input, pos, fields);
      ReadHeadersField(input, pos, headers, field, next);
      ReadHeadersOf(input, next, Set(headers, field.0, field.1), rest, end);
    }
  }

  /** A header block lies in the input as its first line followed by the
      block of the other fields. */
  lemma HeaderBlockAt(input: seq<byte>, pos: nat, fields: Dict<string, string>) returns (next: nat)
    requires fields != [] && WellFormedFields(fields)
    requires OccursAt(input, HeaderBlock(fields) + CRLF, pos)
    ensures OccursAt(input, FieldLineBytes(fields[0]), pos) && next == pos + |FieldLineBytes(fields[0])|
    ensures OccursAt(input, HeaderBlock(fields[1..]) + CRLF, next)
    ensures next + |HeaderBlock(fields[1..])| == pos + |HeaderBlock(fields)|
    ensures WellFormedField(fields[0].0, fields[0].1) && WellFormedFields(fields[1..])
  {
    var line := FieldLineBytes(fields[0]);
    BlockFirstLine(fields);
    OccursAtSplit(input, pos, line, HeaderBlock(fields[1..]) + CRLF);
    next := pos + |line|;
    WellFormedRest(fields);
  }

  /** A non-empty header block and its blank line: the first field's line,
      then the rest. */
  lemma BlockFirstLine(fields: Dict<string, string>)
    requires fields != []
    ensures HeaderBlock(fields) + CRLF == FieldLineBytes(fields[0]) + (HeaderBlock(fields[1..]) + CRLF)
  {
    assert fields == [fields[0]] + fields[1..];
    HeaderBlockCons(fields[0], fields[1..]);
  }

  lemma WellFormedRest(fields: Dict<string, string>)
    requires fields != [] && WellFormedFields(fields)
    ensures WellFormedField(fields[0].0, fields[0].1) && WellFormedFields(fields[1..])
  {
    forall i | 0 <= i < |fields| - 1 ensures WellFormedField(fields[1..][i].0, fields[1..][i].1) {
      assert fields[1..][i] == fields[i + 1];
    }
  }

  /** The empty line ends the header loop. */
  lemma ReadHeadersEnd(input: seq<byte>, pos: nat, headers: Dict<string, string>, end: nat)
    requires OccursAt(input, CRLF, pos) && end == pos + 2
    ensures ReadHeaders(input, pos, headers) == Read(Ok(headers), end)
  {
    assert Utf8("") == [];
    ReadLineOf(input, pos, "");
  }

  /** A header line is stored and the loop goes on after it. */
  lemma ReadHeadersStep(input: seq<byte>, pos: nat, headers: Dict<string, string>,
                        text: string, field: (string, string), next: nat)
    requires pos <= |input| && ReadLine(input, pos) == Read(Ok(text), next)
    requires text != "" && ParseHeader(text) == Ok(field)
    ensures next <= |input|
    ensures ReadHeaders(input, pos, headers) == ReadHeaders(input, next, Set(headers, field.0, field.1))
  {
    assert ReadHeaders(input, pos, headers) == HeaderLine(input, text, next, headers);
  }

  /** A well-formed header line is read, stored, and the loop goes on
      after it. */
  lemma ReadHeadersField(input: seq<byte>, pos: nat, headers: Dict<string, string>,
                         field: (string, string), next: nat)
    requires WellFormedField(field.0, field.1)
    requires OccursAt(input, FieldLineBytes(field), pos) && next == pos + |FieldLineBytes(field)|
    ensures next <= |input|
    ensures ReadHeaders(input, pos, headers) == ReadHeaders(input, next, Set(headers, field.0, field.1))
  {
    ReadFieldLine(input, pos, field);
    ParseFieldText(field);
    ReadHeadersStep(input, pos, headers, FieldText(field), field, next);
  }

  /** `recieve_request` step by step, when each step succeeds. */
  lemma ReadRequestSteps(input: seq<byte>, pos: nat, line: string, p1: nat, headers: Dict<string, string>,
                         p2: nat, contentLength: string, n: int, body: seq<byte>, end: nat)
    requires pos <= |input| && ReadLine(input, pos) == Read(Ok(line), p1)
    requires |Split(line, " ")| >= 2
    requires p1 <= |input| && ReadHeaders(input, p1, []) == Read(Ok(headers), p2)
    requires Lookup(headers, "Content-Length") == Some(contentLength)
    requires TryParseInt(contentLength, ContentLengthNotInteger) == Ok(n)
    requires p2 <= |input| && Recv(input, p2, n) == Read(Ok(body), end)
    ensures ReadRequest(input, pos) ==
      Read(Ok(Request(Split(line, " ")[0], RequestPath(Split(line, " ")[1]).0,
                      RequestPath(Split(line, " ")[1]).1, headers, Some(body))), end)
  {
  }

  /** A line of text sent with its CR LF is read back as itself. */
  lemma ReadLineAt(input: seq<byte>, pos: nat, line: string, next: nat)
    requires IsLineText(line)
    requires OccursAt(input, Utf8(line + "\r\n"), pos) && next == pos + |Utf8(line + "\r\n")|
    ensures ReadLine(input, pos) == Read(Ok(line), next)
  {
    LineBytes(line);
    ReadLineOf(input, pos, line);
  }

  /** The start line `a b c` is one line of text whose first two
      space-separated tokens are `a` and `b`. */
  lemma StartLineTokens(a: string, b: string, c: string)
    requires IsLineText(a) && IsLineText(b) && IsLineText(c) && ' ' !in a && ' ' !in b
    ensures IsLineText(a + " " + b + " " + c)
    ensures var tokens := Split(a + " " + b + " " + c, " "); |tokens| >= 2 && tokens[0] == a && tokens[1] == b
  {
    LineTextAppend(a, " ");
    LineTextAppend(a + " ", b);
    LineTextAppend(a + " " + b, " ");
    LineTextAppend(a + " " + b + " ", c);
    assert a + " " + b + " " + c == a + [' '] + (b + [' '] + c);
    SplitAtFirst(a, ' ', b + [' '] + c);
    SplitAtFirst(b, ' ', c);
  }

  /** A Content-Length that is the body's length receives exactly the body. */
  lemma ReadBody(input: seq<byte>, pos: nat, body: seq<byte>, end: nat)
    requires OccursAt(input, body, pos) && end == pos + |body| && RecvReturns(input, end, |body|)
    ensures TryParseInt(NatToDecimal(|body|), ContentLengthNotInteger) == Ok(|body|)
    ensures Recv(input, pos, |body|) == Read(Ok(body), end)
  {
    ParseLength(|body|);
    RecvAll(input, pos, body, end);
  }

  lemma ParseLength(n: nat)
    ensures TryParseInt(NatToDecimal(n), ContentLengthNotInteger) == Ok(n)
  {
    ParseDecimal(n, ContentLengthNotInteger);
    assert IntToDecimal(n) == NatToDecimal(n);
  }

  /** `recv(n)` returns rather than fails once the bytes up to `end` have
      been read: `n` fits a C `ssize_t`, and when `n` is 0 more bytes follow,
      since `recv(0)` too waits until the socket is readable. */
  predicate RecvReturns(input: seq<byte>, end: nat, n: nat) {
    n <= SsizeMax && (n > 0 || end < |input|)
  }

  /** Asking for as many bytes as lie ahead receives them all. */
  lemma RecvAll(input: seq<byte>, pos: nat, body: seq<byte>, end: nat)
    requires OccursAt(input, body, pos) && end == pos + |body| && RecvReturns(input, end, |body|)
    ensures Recv(input, pos, |body|) == Read(Ok(body), end)
  {
    if body == [] {
      assert input[pos..pos] == [];
    }
  }

  /** A message whose start line has at least two space-separated tokens,
      whose header lines are well formed with distinct names, and whose
      Content-Length is its body's length (an empty body followed by more
      bytes, as `recv(0)` waits for them), is read by `recieve_request` as
      the first two tokens, those headers and that body, and exactly the
      message is consumed. */
  lemma ReadMessage(input: seq<byte>, pos: nat, line: string, headers: Dict<string, string>, body: seq<byte>)
    requires IsLineText(line) && |Split(line, " ")| >= 2
    requires WellFormedFields(headers) && DistinctKeys(headers)
    requires Lookup(headers, "Content-Length") == Some(NatToDecimal(|body|))
    requires OccursAt(input, Message(line, headers, body), pos)
    requires RecvReturns(input, pos + |Message(line, headers, body)|, |body|)
    ensures var tokens := Split(line, " ");
      ReadRequest(input, pos) ==
        Read(Ok(Request(tokens[0], RequestPath(tokens[1]).0, RequestPath(tokens[1]).1, headers, Some(body))),
             pos + |Message(line, headers, body)|)
  {
    var p1, p2 := MessageAt(input, pos, line, headers, body);
    var end := pos + |Message(line, headers, body)|;
    ReadLineAt(input, pos, line, p1);
    ReadDistinctHeaders(input, p1, headers, p2);
    ReadMessageBody(input, pos, line, p1, headers, p2, body, end);
  }

  /** A block of well-formed header lines with distinct names reads back
      as exactly those fields. */
  lemma ReadDistinctHeaders(input: seq<byte>, pos: nat, fields: Dict<string, string>, end: nat)
    requires WellFormedFields(fields) && DistinctKeys(fields)
    requires OccursAt(input, HeaderBlock(fields) + CRLF, pos) && end == pos + |HeaderBlock(fields) + CRLF|
    ensures ReadHeaders(input, pos, []) == Read(Ok(fields), end)
  {
    ReadHeadersOf(input, pos, [], fields, end);
    assert [] + fields == fields;
    SetAllFresh([], fields);
  }

  /** The start line and the headers read, the body follows. */
  lemma ReadMessageBody(input: seq<byte>, pos: nat, line: string, p1: nat, headers: Dict<string, string>,
                        p2: nat, body: seq<byte>, end: nat)
    requires pos <= |input| && ReadLine(input, pos) == Read(Ok(line), p1)
    requires |Split(line, " ")| >= 2
    requires p1 <= |input| && ReadHeaders(input, p1, []) == Read(Ok(headers), p2)
    requires Lookup(headers, "Content-Length") == Some(NatToDecimal(|body|))
    requires OccursAt(input, body, p2) && end == p2 + |body| && RecvReturns(input, end, |body|)
    ensures var tokens := Split(line, " ");
      ReadRequest(input, pos) ==
        Read(Ok(Request(tokens[0], RequestPath(tokens[1]).0, RequestPath(tokens[1]).1, headers, Some(body))), end)
  {
    ReadBody(input, p2, body, end);
    ReadRequestSteps(input, pos, line, p1, headers, p2, NatToDecimal(|body|), |body|, body, end);
  }

  /** Where the start line, the header block and the body of a message
      lie in the input. */
  lemma MessageAt(input: seq<byte>, pos: nat, line: string, headers: Dict<string, string>, body: seq<byte>)
    returns (p1: nat, p2: nat)
    requires OccursAt(input, Message(line, headers, body), pos)
    ensures OccursAt(input, Utf8(line + "\r\n"), pos) && p1 == pos + |Utf8(line + "\r\n")|
    ensures OccursAt(input, HeaderBlock(headers) + CRLF, p1) && p2 == p1 + |HeaderBlock(headers) + CRLF|
    ensures OccursAt(input, body, p2) && p2 + |body| == pos + |Message(line, headers, body)|
  {
    var first := Utf8(line + "\r\n");
    var block := HeaderBlock(headers) + CRLF;
    Reassociate(first, HeaderBlock(headers), CRLF, body);
    OccursAtSplit(input, pos, first, block + body);
    OccursAtSplit(input, pos + |first|, block, body);
    p1 := pos + |first|;
    p2 := p1 + |block|;
  }

  lemma VersionText()
    ensures IsLineText(HttpVersion) && ' ' !in HttpVersion
  {
  }

  /** Of repeated header names, the last line wins. */
  lemma ReadHeadersLastWins(input: seq<byte>, pos: nat, fields: Dict<string, string>, i: nat)
    requires WellFormedFields(fields) && OccursAt(input, HeaderBlock(fields) + CRLF, pos)
    requires i < |fields| && forall j :: i < j < |fields| ==> fields[j].0 != fields[i].0
    ensures var r := ReadHeaders(input, pos, []);
      r.result.Ok? && Lookup(r.result.value, fields[i].0) == Some(fields[i].1)
  {
    ReadHeadersOf(input, pos, [], fields, pos + |HeaderBlock(fields)| + 2);
    SetAllLastWins([], fields, i);
  }

  /** A request as a client writes it, with a body of Content-Length bytes. */
  function RequestMessage(verb: string, target: string, headers: Dict<string, string>, body: seq<byte>): seq<byte> {
    Message(verb + " " + target + " " + HttpVersion, headers, body)
  }

  /** `recieve_request` reads back the method, the route and query of the
      request target, the headers and the body a client wrote. */
  lemma ReadRequestOf(input: seq<byte>, pos: nat, verb: string, target: string,
                      headers: Dict<string, string>, body: seq<byte>)
    requires IsLineText(verb) && IsLineText(target) && ' ' !in verb && ' ' !in target
    requires WellFormedFields(headers) && DistinctKeys(headers)
    requires Lookup(headers, "Content-Length") == Some(NatToDecimal(|body|))
    requires OccursAt(input, RequestMessage(verb, target, headers, body), pos)
    requires RecvReturns(input, pos + |RequestMessage(verb, target, headers, body)|, |body|)
    ensures ReadRequest(input, pos) ==
      Read(Ok(Request(verb, RequestPath(target).0, RequestPath(target).1, headers, Some(body))),
           pos + |RequestMessage(verb, target, headers, body)|)
  {
    VersionText();
    StartLineTokens(verb, target, HttpVersion);
    ReadMessage(input, pos, verb + " " + target + " " + HttpVersion, headers, body);
  }

  // ---------------------------------------------------------------------
  // Responses

  lemma DecimalLineText(i: int)
    ensures IsLineText(IntToDecimal(i)) && ' ' !in IntToDecimal(i) && '?' !in IntToDecimal(i)
  {
    var s := IntToDecimal(i);
    var digits := NatToDecimal(if i < 0 then -i else i);
    assert s == (if i < 0 then "-" else "") + digits;
    forall k | 0 <= k < |s| ensures s[k] as int < 128 && s[k] != '\r' && s[k] != '\n' {
      if i < 0 && k > 0 {
        assert s[k] == digits[k - 1];
      } else if i >= 0 {
        assert s[k] == digits[k];
      }
    }
  }

  lemma ContentLengthField(n: nat)
    ensures WellFormedField("Content-Length", NatToDecimal(n))
  {
    var s := NatToDecimal(n);
    assert IsDigit(s[0]) && IsDigit(s[|s| - 1]);
    assert IsLineText(s) by {
      forall k | 0 <= k < |s| ensures s[k] as int < 128 && s[k] != '\r' && s[k] != '\n' {
        assert IsDigit(s[k]);
      }
    }
  }

  /** `d[k] = v` keeps the old items except one with key `k`, and adds
      `(k, v)`. */
  lemma SetItems<V>(d: Dict<string, V>, k: string, v: V, i: nat)
    requires i < |Set(d, k, v)|
    ensures Set(d, k, v)[i] == (k, v) || Set(d, k, v)[i] in d
  {
    match KeyIndex(d, k)
    case None =>
      if i < |d| {
        assert Set(d, k, v)[i] == d[i];
      }
    case Some(j) =>
      if i != j {
        assert Set(d, k, v)[i] == d[i];
      }
  }

  /** Setting Content-Length keeps well-formed header lines well formed. */
  lemma WithContentLengthFields(headers: Dict<string, string>, body: seq<byte>)
    requires WellFormedFields(headers)
    ensures WellFormedFields(WithContentLength(headers, body))
  {
    var r := WithContentLength(headers, body);
    forall i | 0 <= i < |r| ensures WellFormedField(r[i].0, r[i].1) {
      SetItems(headers, "Content-Length", NatToDecimal(|body|), i);
      ContentLengthField(|body|);
    }
  }

  /** What `send_response` writes for an `HttpResponse`, whose constructor
      set Content-Length, frames its body: read with the same rules, the
      status line gives the version and the status code, the header lines
      give the response's headers, and exactly `|body|` bytes follow, none
      of the bytes sent after the response being taken. An empty body is
      read only once more bytes follow, as `recv(0)` waits for them. */
  lemma ResponseFraming(status: int, reason: string, headers: Dict<string, string>, body: seq<byte>, rest: seq<byte>)
    requires IsLineText(reason) && WellFormedFields(headers) && DistinctKeys(headers)
    requires |body| <= SsizeMax && (body != [] || rest != [])
    ensures var sent := WithContentLength(headers, body);
      ReadRequest(Serialize(status, reason, sent, body) + rest, 0) ==
        Read(Ok(Request(HttpVersion, IntToDecimal(status), [], sent, Some(body))),
             |Serialize(status, reason, sent, body)|)
  {
    var sent := WithContentLength(headers, body);
    var message := Serialize(status, reason, sent, body);
    WithContentLengthFields(headers, body);
    DecimalLineText(status);
    VersionText();
    StartLineTokens(HttpVersion, IntToDecimal(status), reason);
    OccursAtStart(message, rest);
    ReadMessage(message + rest, 0, StatusLine(status, reason), sent, body);
  }

  lemma OccursAtStart(x: seq<byte>, rest: seq<byte>)
    ensures OccursAt(x + rest, x, 0)
  {
    assert (x + rest)[0..|x|] == x;
  }

  // ---------------------------------------------------------------------
  // Malformed requests

  /** A request line without a space is refused right after it is read,
      before any header is read; one with a space is never refused for
      that reason. */
  lemma FirstLineNeedsSpace(input: seq<byte>, pos: nat)
    requires pos <= |input| && ReadLine(input, pos).result.Ok?
    ensures var first := ReadLine(input, pos);
      ' ' !in first.result.value ==>
        ReadRequest(input, pos) == Read(Err(BadRequest(InvalidFirstLine)), first.next)
    ensures ' ' in ReadLine(input, pos).result.value ==>
      ReadRequest(input, pos).result != Err(BadRequest(InvalidFirstLine))
  {
    var line := ReadLine(input, pos).result.value;
    if ' ' !in line {
      SplitWithout(line, ' ');
    } else {
      SpacedTokens(line);
      AfterFirstLine(input, pos);
    }
  }

  /** A line holding a space has at least two tokens. */
  lemma SpacedTokens(line: string)
    requires ' ' in line
    ensures |Split(line, " ")| >= 2
  {
    var k :| 0 <= k < |line| && line[k] == ' ';
    var i := FirstSpace(line, k);
    assert line == line[..i] + [' '] + line[i + 1..];
    SplitAtFirst(line[..i], ' ', line[i + 1..]);
  }

  /** Once the first line has two tokens, no later step reports an invalid
      first line. */
  lemma AfterFirstLine(input: seq<byte>, pos: nat)
    requires pos <= |input| && ReadLine(input, pos).result.Ok?
    requires |Split(ReadLine(input, pos).result.value, " ")| >= 2
    ensures ReadRequest(input, pos).result != Err(BadRequest(InvalidFirstLine))
  {
    MessagesDistinct();
  }

  lemma MessagesDistinct()
    ensures InvalidFirstLine != MissingColon && InvalidFirstLine != ContentLengthNotInteger
  {
    assert InvalidFirstLine[0] == 'I' && MissingColon[0] == 'M' && ContentLengthNotInteger[0] == 'C';
  }

  /** The first space of a line that holds one. */
  function FirstSpace(line: string, k: nat): (i: nat)
    requires k < |line| && line[k] == ' '
    ensures i <= k && line[i] == ' ' && ' ' !in line[..i]
  {
    if ' ' in line[..k] then
      var j :| 0 <= j < k && line[..k][j] == ' ';
      assert line[j] == ' ';
      FirstSpace(line, j)
    else k
  }

  /** The headers `recieve_request` reads, when it reads them. */
  function RequestHeaders(input: seq<byte>, pos: nat): Read<Dict<string, string>>
    requires pos <= |input| && ReadLine(input, pos).result.Ok?
  {
    ReadHeaders(input, ReadLine(input, pos).next, [])
  }

  /** Without Content-Length there is no body and nothing after the empty
      line is consumed. */
  lemma NoContentLengthNoBody(input: seq<byte>, pos: nat)
    requires pos <= |input| && ReadLine(input, pos).result.Ok?
    requires ' ' in ReadLine(input, pos).result.value
    requires RequestHeaders(input, pos).result.Ok?
    requires Lookup(RequestHeaders(input, pos).result.value, "Content-Length").None?
    ensures ReadRequest(input, pos).result.Ok?
    ensures ReadRequest(input, pos).result.value.body.None?
    ensures ReadRequest(input, pos).result.value.headers == RequestHeaders(input, pos).result.value
    ensures ReadRequest(input, pos).next == RequestHeaders(input, pos).next
  {
    FirstLineNeedsSpace(input, pos);
  }

  /** A Content-Length that is not an integer is refused once the headers
      are read, and no byte of the body is consumed. */
  lemma ContentLengthMustBeInteger(input: seq<byte>, pos: nat)
    requires pos <= |input| && ReadLine(input, pos).result.Ok?
    requires ' ' in ReadLine(input, pos).result.value
    requires RequestHeaders(input, pos).result.Ok?
    requires var length := Lookup(RequestHeaders(input, pos).result.value, "Content-Length");
      length.Some? && !IsIntLiteral(length.value)
    ensures ReadRequest(input, pos) ==
      Read(Err(BadRequest(ContentLengthNotInteger)), RequestHeaders(input, pos).next)
  {
    FirstLineNeedsSpace(input, pos);
  }

  /** A negative Content-Length passes `try_parse_int` and reaches
      `recv`, which raises `ValueError`. */
  lemma NegativeContentLength(input: seq<byte>, pos: nat)
    requires pos <= |input| && ReadLine(input, pos).result.Ok?
    requires ' ' in ReadLine(input, pos).result.value
    requires RequestHeaders(input, pos).result.Ok?
    requires var length := Lookup(RequestHeaders(input, pos).result.value, "Content-Length");
      && length.Some? && IsIntLiteral(length.value) && length.value[0] == '-'
      && 0 < DigitsValue(length.value[1..]) <= -SsizeMin
    ensures ReadRequest(input, pos) == Read(Err(ValueError), RequestHeaders(input, pos).next)
  {
    FirstLineNeedsSpace(input, pos);
    var length := Lookup(RequestHeaders(input, pos).result.value, "Content-Length").value;
    assert !AllDigits(length) by {
      assert !IsDigit(length[0]);
    }
  }

  /** A Content-Length beyond what a C `ssize_t` holds, in either
      direction, passes `try_parse_int` and is refused by `recv` with
      `OverflowError`. */
  lemma HugeContentLength(input: seq<byte>, pos: nat)
    requires pos <= |input| && ReadLine(input, pos).result.Ok?
    requires ' ' in ReadLine(input, pos).result.value
    requires RequestHeaders(input, pos).result.Ok?
    requires var length := Lookup(RequestHeaders(input, pos).result.value, "Content-Length");
      && length.Some?
      && var n := TryParseInt(length.value, ContentLengthNotInteger);
      n.Ok? && (n.value < SsizeMin || n.value > SsizeMax)
    ensures ReadRequest(input, pos) == Read(Err(OverflowError), RequestHeaders(input, pos).next)
  {
    FirstLineNeedsSpace(input, pos);
  }

  /** `Content-Length: 0` with nothing sent after the headers times out:
      `recv(0)` waits for the socket to become readable. */
  lemma EmptyBodyAtEnd(input: seq<byte>, pos: nat)
    requires pos <= |input| && ReadLine(input, pos).result.Ok?
    requires ' ' in ReadLine(input, pos).result.value
    requires RequestHeaders(input, pos).result.Ok? && RequestHeaders(input, pos).next == |input|
    requires var length := Lookup(RequestHeaders(input, pos).result.value, "Content-Length");
      length.Some? && TryParseInt(length.value, ContentLengthNotInteger) == Ok(0)
    ensures ReadRequest(input, pos) == Read(Err(Timeout), |input|)
  {
    FirstLineNeedsSpace(input, pos);
  }

  /** `recv(length)` returns what has arrived: a client that sends fewer
      bytes than its Content-Length announces has its request accepted with
      the shorter body. */
  lemma ShortBody(input: seq<byte>, pos: nat)
    requires pos <= |input| && ReadLine(input, pos).result.Ok?
    requires ' ' in ReadLine(input, pos).result.value
    requires RequestHeaders(input, pos).result.Ok?
    requires var length := Lookup(RequestHeaders(input, pos).result.value, "Content-Length");
      && length.Some?
      && TryParseInt(length.value, ContentLengthNotInteger).Ok?
      && RequestHeaders(input, pos).next < |input| < RequestHeaders(input, pos).next + TryParseInt(length.value, ContentLengthNotInteger).value
      && TryParseInt(length.value, ContentLengthNotInteger).value <= SsizeMax
    ensures var r := ReadRequest(input, pos);
      && r.result.Ok?
      && r.result.value.body == Some(input[RequestHeaders(input, pos).next..])
      && r.next == |input|
  {
    FirstLineNeedsSpace(input, pos);
    var start := RequestHeaders(input, pos).next;
    assert input[start..|input|] == input[start..];
  }
}
