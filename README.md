# HTTP/1.1 message layer of `web_server.py`, modelled in Dafny

This project models the message layer of a small Python HTTP/1.1 server:
- the text grammar it applies to request lines, header lines, query strings and header-value parameters;
- the decoder for a single-part `multipart/form-data` body;
- the file-name and content-type helpers;
- the `ClientConnection` class, which reads a request off a socket and writes a response back;
- the `HttpResponse` constructor, which injects `Content-Length`;
- the failure handling of `main`, which turns every failure into a 400, 408 or 500 response.

The modules follow the program:

| module | models |
|---|---|
| `Basics` | `Option`, `Result` and the failures the Python code raises (`BadRequest`, `socket.timeout`, `IndexError`, `UnicodeDecodeError`, `ValueError`, `OverflowError`) |
| `Seqs` | the `str`/`bytes` methods the server relies on (`find`, `rfind`, `split`, `join`, `removeprefix`, `removesuffix`, clamped slices) |
| `Octets` | bytes, UTF-8 encoding, and the per-byte ASCII decoding that `recieve_line` performs |
| `Dicts` | Python dictionaries, kept in insertion order, where a repeated key overwrites in place |
| `Numbers` | `try_parse_int` on decimal literals, and `str()` of an integer |
| `Grammar` | `trim_linear_whitespaces`, `parse_header`, `parse_request_path`, `parse_header_value_parameters` |
| `Multipart` | `parse_form_data` |
| `Files` | `is_valid_filename`, `get_content_type` |
| `Connection` | the socket, `recieve_line`, `recieve_request`, `send_response`, `close` and the `HttpResponse` constructor, as pure functions over the client's bytes and as the classes `HeaderDict`, `HttpResponse` and `ClientConnection` |
| `Framing` | round trips through the wire format, and the error paths of `recieve_request` |
| `Server` | one pass of `main`'s accept loop |

**The socket.** The client's side is the sequence `input` of every byte the client sends. A cursor `pos` marks how far the server has read. The client socket has a two-second timeout (web_server.py:269), so CPython's `recv(n)` checks its size and then waits for the socket to become readable before it reads. `recv(n)` is modelled as follows:
- an `n` outside the C `ssize_t` range (-2^63 to 2^63 - 1 on a 64-bit platform) raises `OverflowError`;
- a negative `n` inside that range raises `ValueError`;
- at the end of the input it raises `socket.timeout`, since the client has fallen silent. This holds for `n == 0` too;
- `n == 0` with bytes remaining returns nothing;
- otherwise it returns up to `n` of the bytes that remain.

`ClientConnection` methods are proved against pure functions over `input` and `pos` (`ReadLine`, `ReadRequest`, `Serialize`). The properties are then proved about those functions.

**Behaviour of the code that the model keeps, even where it surprises:**
- A negative `Content-Length` parses as an integer. `recv` then raises `ValueError`, and the client receives 500, not 400. A `Content-Length` outside the `ssize_t` range, in either direction, raises `OverflowError`, also answered with 500.
- `Content-Length: 0` with nothing sent after the headers times out (408), because `recv(0)` waits for the socket to become readable.
- The body is whatever one `recv(length)` returns. It may be shorter than `Content-Length` when fewer bytes have arrived.
- Quoted parameter values lose a leading quote and, independently, a trailing quote, so `"abc` is accepted.
- A parameter written `name=` with nothing after the equals sign raises `IndexError` (500).
- A header line `Name:` yields an empty value; the slice past the colon is clamped.
- `is_valid_filename("")` raises `IndexError` (see Findings).

## Model

| member | source | states |
|---|---|---|
| Basics.MapAll | web_server.py:366-370 | applying a fallible parser to each piece succeeds iff every piece parses; on failure it reports the first failing piece's error |
| Dicts.Set | web_server.py:102 | `d[k] = v`: `k` now maps to `v` and every other key keeps its value. A new key is appended at the end; an existing key keeps its position. Distinct keys stay distinct |
| Dicts.SetAllLastWins | web_server.py:91-102 | after a run of assignments, a key holds the value of its last assignment |
| Dicts.SetAllUntouched | web_server.py:210-216 | a key never assigned in the run keeps the value it had before |
| Dicts.SetAllFresh | web_server.py:367-370 | assignments of distinct new keys build the dictionary in insertion order |
| Dicts.TryRetrieve | web_server.py:37-43 | returns the key's value iff the key is present; otherwise fails with `BadRequest` carrying the given message |
| Numbers.TryParseInt | web_server.py:46-54 | succeeds iff the text is an optionally signed decimal literal; otherwise fails with `BadRequest` carrying the given message. The value is that of the digits, negated after a minus; a negative result comes only from a leading minus |
| Numbers.PaddedDecimal | web_server.py:46-54 | `int()` reads zero-padded digits, with or without a sign, as the number they write: `007` and `+7` are 7, `-07` is -7 and `-0` is 0 |
| Numbers.ParseDecimal | web_server.py:46-54 | parsing the decimal text of any integer gives that integer back |
| Numbers.DigitsOfDecimal | web_server.py:159 | the digits written for a length read back as that length |
| Octets.Utf8Append | web_server.py:233-239 | encoding a concatenation is the concatenation of the encodings |
| Octets.DecodeAscii | web_server.py:191 | per-byte decoding succeeds iff every byte is below 128, and then re-encodes to the same bytes |
| Octets.DecodeUtf8Ascii | web_server.py:191 | decoding the encoding of ASCII text gives back the text |
| Grammar.TrimOws | web_server.py:57-61 | the result is trimmed (no space or tab at either end); it is a contiguous piece of the input with only spaces and tabs around it |
| Grammar.TrimIdempotent | web_server.py:57-61 | trimming twice equals trimming once |
| Grammar.TrimAround | web_server.py:57-61 | surrounding trimmed text with optional whitespace and trimming gives the text back |
| Grammar.ParseHeader | web_server.py:64-73 | fails with "Missing colon in header" iff the line has no colon. Otherwise the name is everything before the first colon, and the value is the trimmed text from two characters after the colon |
| Grammar.ParseHeaderLine | web_server.py:64-73 | a line `name: value` with a colon-free name and a trimmed value parses back to `(name, value)` |
| Grammar.ParseHeaderSkipsOne | web_server.py:72 | whatever character follows the colon is skipped, not only a space |
| Grammar.ParseHeaderEmptyValue | web_server.py:72 | `Name:` parses to an empty value instead of failing |
| Grammar.QueryParameter | web_server.py:92-101 | a segment without `=` is a key with no value. Otherwise the key is the text before the first `=` and the value is the text after it; key, `=` and value rebuild the segment |
| Grammar.QueryItemsRebuild | web_server.py:89-101 | the query items lose nothing: writing each back as `key` or `key=value` and joining them with `&` gives the query string again |
| Grammar.RequestPath | web_server.py:76-103 | a target without `?` is the route with no parameters. Otherwise the route ends at the first `?` and the parameters are the query items assigned in order |
| Grammar.ParseRequestPath | web_server.py:76-103 | the loop builds exactly `RequestPath`'s route and parameters |
| Grammar.RequestPathLastWins | web_server.py:91-102 | a repeated query key keeps the value of its last occurrence |
| Grammar.Unescape | web_server.py:316-329 | text without a backslash is unchanged; every failure is "Invalid backslash at the end of string"; the result is never longer |
| Grammar.UnescapeFails | web_server.py:316-329 | unescaping fails iff the text ends in a run of backslashes of odd length, whose last backslash has nothing left to escape |
| Grammar.UnescapeTrailing | web_server.py:325-326 | escaped text followed by one more backslash fails with "Invalid backslash at the end of string" |
| Grammar.UnescapeEscape | web_server.py:316-329 | escaping every quote and backslash and then unescaping gives the original text |
| Grammar.QuotedContentOf | web_server.py:313-314 | removing the quotes from `"t"` gives `t` |
| Grammar.ParseParameter | web_server.py:305-329 | a parameter fails only with "Invalid header parameter syntax", the `IndexError` of an empty value, or "Invalid backslash at the end of string" |
| Grammar.ParameterShape | web_server.py:305-314 | a trimmed segment without `=` fails with "Invalid header parameter syntax". When the first `=` is the segment's last character, the parse fails with `IndexError`, and only then. A successful parse names the text before the first `=`, and its raw value is non-empty. An unquoted value is kept verbatim; a quoted one comes back shorter |
| Grammar.ParseQuotedParameter | web_server.py:305-330 | `name="escaped value"` parses back to `(name, value)` |
| Grammar.HeaderValueParameters | web_server.py:292-331 | the main value is the trimmed first `;`-segment, and the parameters have distinct names |
| Grammar.ParametersFirstFailure | web_server.py:303-309 | the first malformed parameter's error is the result |
| Grammar.ParametersLastWins | web_server.py:330 | a repeated parameter name keeps its last value |
| Grammar.UnescapeQuoted | web_server.py:316-329 | the character loop computes `Unescape` |
| Grammar.ParseHeaderValueParameters | web_server.py:292-331 | the loop over segments computes `HeaderValueParameters`, including which error is raised |
| Multipart.Boundary | web_server.py:346-350 | a missing Content-Type fails with "Missing Content-Type header", and a missing boundary parameter with "Missing boundary in Content-Type header". Success means both are present and the result is the boundary's value |
| Multipart.Part | web_server.py:358-371 | a body without a blank line fails with "Invalid body structure". A header line that fails to decode or parse makes the part fail with the error of the first such line. The part's header names are distinct |
| Multipart.PartFirstFailure | web_server.py:366-370 | the first header line of the part that fails to decode or parse decides the part's error |
| Multipart.PartAfterBlock | web_server.py:358-371 | header lines that all parse, a blank line and content give the fields assigned in order, so a repeated header keeps its last value, and exactly that content |
| Multipart.PartContent | web_server.py:358-364 | a successful part's content is everything after the first blank line of the unframed body |
| Multipart.FormData | web_server.py:334-371 | a missing body fails with "Missing request body", and a boundary failure is passed on. Otherwise the result is the part found after removing the opening and closing delimiters |
| Multipart.ParseFormData | web_server.py:334-371 | the header loop computes `FormData` |
| Multipart.FieldLinesParse | web_server.py:366-370 | each well-formed header line of a part parses back to its field |
| Multipart.FirstBlankLine | web_server.py:358 | the separator search stops at the blank line after the header block |
| Multipart.UnframeFramed | web_server.py:352-355 | removing the delimiters undoes adding them |
| Multipart.PartRoundTrip | web_server.py:358-371 | a header block of well-formed distinct fields, a blank line and content decode to those fields and that content |
| Multipart.FormDataRoundTrip | web_server.py:334-371 | a framed single-part body decodes to its fields and content |
| Files.IsValidFilename | web_server.py:417-429 | raises `IndexError` iff the name is empty. Otherwise the name is valid iff it has no forbidden character and does not end with a dot or space |
| Files.EmptyFilenameRaises | web_server.py:425-427 | the empty name reaches `name[-1]` and raises |
| Files.IsValidFilenameIntended | web_server.py:417-429 | valid iff non-empty, with no forbidden character and no dot or space at the end |
| Files.IntendedAgrees | web_server.py:417-429 | the corrected check agrees with the code on every non-empty name |
| Files.GetContentType | web_server.py:458-471 | a name without a dot is plain text; every answer is plain text or one of the table's types |
| Files.ContentTypeOfExtension | web_server.py:464-469 | the text after the last dot selects the table's type, or plain text if the extension is not in the table |
| Connection.Recv | web_server.py:224 | the socket's `recv(n)`, with the cases listed above: `OverflowError` outside the `ssize_t` range, `ValueError` for other negative sizes, a time-out at the end of the input even for `n == 0`, or up to `n` bytes that are the next ones of the input |
| Connection.ReadLineFromMeaning | web_server.py:184-193 | a line ends at the first CR LF, and its bytes are the encoded text plus CR LF. Otherwise no line ends in the bytes read, and reading stops either with a time-out at the end of the input, all of it text, or with a decoding error just after the first byte of 128 or above |
| Connection.ReadLineFromUpTo | web_server.py:184-193 | text bytes followed by CR LF are read as one line ending just after the LF |
| Connection.ReadLine | web_server.py:184-193 | a line read consumes at least its CR LF; a failure is a time-out or a decoding error |
| Connection.ReadLineMeaning | web_server.py:184-193 | `ReadLine`'s result is exactly what `ReadLineFromMeaning` states, from the cursor: a failure means no complete line of text precedes it |
| Connection.ReadLineUpTo | web_server.py:184-193 | text before the first CR LF is read as the line even when it holds a lone CR or LF, consuming exactly the CR LF after it |
| Connection.ReadLineOf | web_server.py:184-193 | a line of text followed by CR LF reads back as that text, consuming exactly it |
| Connection.ReadHeaders | web_server.py:210-216 | header reading fails only with a time-out, a decoding error or a missing colon |
| Connection.ReadRequest | web_server.py:195-225 | request reading fails only with those, with "Invalid first request line", with "Content-Length isn't integer", or with the `ValueError` or `OverflowError` of `recv` |
| Connection.WithContentLength | web_server.py:159 | `Content-Length` maps to the body's length in decimal and every other header is unchanged. An existing entry keeps its place, otherwise it is appended |
| Connection.HttpResponse.constructor | web_server.py:152-159 | the constructor stores its arguments and sets `Content-Length` in the caller's header dictionary |
| Connection.ClientConnection.Receive | web_server.py:191 | one `recv` moves the cursor as `Recv` states |
| Connection.ClientConnection.ReceiveLine | web_server.py:184-193 | the byte-at-a-time loop returns what `ReadLine` returns and leaves the cursor where it does |
| Connection.ClientConnection.ReceiveRequest | web_server.py:195-225 | the method returns what `ReadRequest` returns and leaves the cursor where it does |
| Connection.ClientConnection.SendResponse | web_server.py:227-243 | the bytes sent are the status line, one line per header in dictionary order, a blank line, and the body |
| Connection.ClientConnection.SendHeaderLines | web_server.py:236-239 | the header loop sends one `name: value` line per header, in dictionary order, and nothing else |
| Connection.ClientConnection.Close | web_server.py:245-246 | the connection is closed |
| Framing.HeaderBlockCons | web_server.py:237-239 | the header block of a dictionary is its first line followed by the block of the rest |
| Framing.ReadHeadersOf | web_server.py:210-216 | reading a block of well-formed header lines and a blank line assigns those fields in order and stops just after the blank line |
| Framing.ReadHeadersLastWins | web_server.py:214-215 | a header sent twice keeps its last value |
| Framing.ReadMessage | web_server.py:195-225 | a message with a start line of two or more tokens, well-formed headers and a matching Content-Length reads back exactly. The verb and target come from the first two tokens, and the body is consumed exactly. An empty body is read only when more bytes follow, since `recv(0)` waits for them |
| Framing.ReadRequestOf | web_server.py:195-225 | a request `verb target HTTP/1.1` with headers and a body reads back as those, consuming the whole message |
| Framing.ResponseFraming | web_server.py:152-159 | a serialised response, read with the request grammar, gives back its headers with Content-Length, and exactly its body, leaving whatever follows it unread |
| Framing.FirstLineNeedsSpace | web_server.py:202-204 | a first line without a space fails with "Invalid first request line". One with a space goes on to read headers |
| Framing.NoContentLengthNoBody | web_server.py:218-219 | without Content-Length the request has no body, and reading stops after the blank line |
| Framing.ContentLengthMustBeInteger | web_server.py:219-222 | a Content-Length that is not an integer fails with "Content-Length isn't integer" before any body byte is read |
| Framing.NegativeContentLength | web_server.py:221-224 | a negative Content-Length down to -2^63 reaches `recv` and fails with `ValueError` |
| Framing.ShortBody | web_server.py:224 | when fewer bytes than Content-Length have arrived, the body is what has arrived |
| Framing.HugeContentLength | web_server.py:221-224 | a Content-Length outside the `ssize_t` range, above or below, passes `try_parse_int` and fails in `recv` with `OverflowError` |
| Framing.EmptyBodyAtEnd | web_server.py:218-224 | `Content-Length: 0` with nothing after the headers fails with a time-out |
| Server.FailureReply | web_server.py:559-576 | a bad request gets 400 with its message as a plain-text body. A time-out gets 408 with `Connection: close`. Anything else gets an empty 500. None of these sets Content-Length itself |
| Server.MalformedRequestAnswer | web_server.py:549-576 | a request that cannot be read is answered without the handler, with 400, 408 or 500; a 400 carries one of the three framing messages |
| Server.TimeoutAnswer | web_server.py:559-564 | a silent client gets 408, `Connection: close` and `Content-Length: 0` |
| Server.FailureReplyFramed | web_server.py:559-576 | every failure response is framed so that a reader recovers its headers and exactly its body, and none of the bytes after it |
| Server.Respond | web_server.py:562-576 | building the `HttpResponse` and sending it appends exactly the serialised reply |
| Server.HandleConnection | web_server.py:549-577 | one pass reads one request, sends the answer and closes. The answer is the handler's reply, or the failure reply for the request's or the handler's failure |

## Left out

- `HttpServer` (binding, listening, `accept`, `settimeout`) and the endless accept loop of `main`: a single pass is modelled in `Server.HandleConnection`.
- The socket's timing: a time-out is modelled as reading past the last byte the client sends; the two-second clock is not modelled.
- A client that closes its side: `recv(1)` then returns no bytes and `recieve_line` loops for ever. The model has no closed-input state.
- Partial sends: `send` is modelled as writing all its bytes.
- Reads shorter than asked for in mid-stream: `Recv` returns everything available up to `n`, so a short body happens only at the end of the input.
- The endpoint handlers (`calculate_next`, `calculate_area`, `upload`, `get_image`), the `API_METHODS` dispatch and `get_file`: file-system I/O and floating point. `Server.HandleConnection` takes the handler as a parameter; `Multipart`, `Files.IsValidFilename` and `Files.GetContentType` model the parts of them that belong to the message layer.
- `get_file_content` and `write_to_file`: file I/O.
- Exceptions raised by `send_response` itself: sending is modelled as never failing. A failure in the send inside `main`'s `try` would be answered with a second response. A failure in a send inside an `except` clause escapes `main`, and the connection is never closed.
- `HttpRequest`'s getters: the request is the value `Connection.Request`.
- Connection.Recv: a size that fits `ssize_t` but cannot be allocated makes CPython raise `MemoryError`, answered with 500. The threshold depends on the machine's memory, so the model reads whatever remains, or times out, instead.
- Numbers.TryParseInt: accepts an optional sign and decimal digits only. Python's `int()` also accepts surrounding whitespace, underscores between digits and non-ASCII digits.
- Multipart.PartHeader: decodes only ASCII and treats a byte of 128 or above as `UnicodeDecodeError`. `bytes.decode()` accepts well-formed multi-byte UTF-8.
- Connection.WithContentLength: stores the length as its decimal text, as `send_response` formats it. The Python dictionary holds the integer.

## Findings

| source | as written | input that shows it | evidently intended | confidence | as-written member | corrected member |
|---|---|---|---|---|---|---|
| web_server.py:425-427 | `name[-1]` is read before the emptiness check | `is_valid_filename("")`, reached by an upload with `filename=""`, raises `IndexError`; the client gets 500 instead of 400 "Invalid filename" | return `False` for the empty name | not executed | Files.EmptyFilenameRaises | Files.IsValidFilenameIntended |
