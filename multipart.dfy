/** `parse_form_data`: the decoder of a request body that carries a single
    multipart/form-data part (RFC 7578), framed by the delimiter lines of
    section 5.1.1 of RFC 2046: `--B` CRLF before the part and CRLF `--B--`
    CRLF after it, where B is the `boundary` parameter of the Content-Type
    header. Inside the part a blank line separates its header lines from
    its content. */
module Multipart {
  import opened Basics
  import opened Seqs
  import opened Octets
  import opened Dicts
  import opened Grammar

  const MissingBody := "Missing request body"
  const MissingContentType := "Missing Content-Type header"
  const MissingBoundary := "Missing boundary in Content-Type header"
  const InvalidStructure := "Invalid body structure"

  /** The blank line that ends the part's headers. */
  const HeaderEnd: seq<byte> := CRLF + CRLF

  /** The delimiter line in front of the part, `--B` CRLF. */
  function Opening(boundary: string): seq<byte> {
    Utf8("--" + boundary + "\r\n")
  }

  /** The close delimiter after the part, CRLF `--B--` CRLF. */
  function Closing(boundary: string): seq<byte> {
    Utf8("\r\n--" + boundary + "--\r\n")
  }

  /** The `boundary` parameter of the request's Content-Type header. */
  function Boundary(headers: Dict<string, string>): (r: Result<string>)
    ensures Lookup(headers, "Content-Type").None? ==> r == Err(BadRequest(MissingContentType))
    ensures r.Err? && Lookup(headers, "Content-Type").Some? ==>
      var parameters := HeaderValueParameters(Lookup(headers, "Content-Type").value);
      parameters == Err(r.error) || (parameters.Ok? && r == Err(BadRequest(MissingBoundary)))
    ensures r.Ok? ==> (Lookup(headers, "Content-Type").Some? &&
      var parameters := HeaderValueParameters(Lookup(headers, "Content-Type").value);
      parameters.Ok? && Lookup(parameters.value.1, "boundary") == Some(r.value))
  {
    match TryRetrieve(headers, "Content-Type", MissingContentType)
    case Err(e) => Err(e)
    case Ok(contentType) =>
      match HeaderValueParameters(contentType)
      case Err(e) => Err(e)
      case Ok((_, parameters)) => TryRetrieve(parameters, "boundary", MissingBoundary)
  }

  /** The body with one opening delimiter removed from its front and one
      close delimiter from its end, each only where present. */
  function Unframe(body: seq<byte>, boundary: string): seq<byte> {
    RemoveSuffix(RemovePrefix(body, Opening(boundary)), Closing(boundary))
  }

  /** One header line of the part: decoded to text, then `parse_header`. */
  function PartHeader(line: seq<byte>): Result<(string, string)> {
    match DecodeAscii(line)
    case None => Err(UnicodeDecodeError)
    case Some(text) => ParseHeader(text)
  }

  /** The part left after unframing: the header lines before the first
      blank line, each parsed and stored in order, and the content after it. */
  function Part(framed: seq<byte>): (r: Result<(Dict<string, string>, seq<byte>)>)
    ensures IndexOf(framed, HeaderEnd).None? ==> r == Err(BadRequest(InvalidStructure))
    ensures IndexOf(framed, HeaderEnd).Some? ==>
      var lines := MapAll(PartHeader, Split(framed[..IndexOf(framed, HeaderEnd).value], CRLF));
      lines.Err? ==> r == Err(lines.error)
    ensures r.Ok? ==> DistinctKeys(r.value.0)
  {
    match IndexOf(framed, HeaderEnd)
    case None => Err(BadRequest(InvalidStructure))
    case Some(k) =>
      match MapAll(PartHeader, Split(framed[..k], CRLF))
      case Err(e) => Err(e)
      case Ok(items) => Ok((SetAll([], items), framed[k + 4..]))
  }

  /** A header line of the part that fails to decode or to parse makes the
      part fail with that line's error, when every line before it is well
      formed. */
  lemma PartFirstFailure(framed: seq<byte>, i: nat)
    requires IndexOf(framed, HeaderEnd).Some?
    requires var lines := Split(framed[..IndexOf(framed, HeaderEnd).value], CRLF);
      && i < |lines| && PartHeader(lines[i]).Err?
      && forall j :: 0 <= j < i ==> PartHeader(lines[j]).Ok?
    ensures var lines := Split(framed[..IndexOf(framed, HeaderEnd).value], CRLF);
      Part(framed) == Err(PartHeader(lines[i]).error)
  {
    var lines := Split(framed[..IndexOf(framed, HeaderEnd).value], CRLF);
    MapAllFirstErr(PartHeader, lines, i);
  }

  /** The content is exactly what follows the first blank line. */
  lemma PartContent(framed: seq<byte>)
    ensures var r := Part(framed);
      r.Ok? ==> exists k :: OccursAt(framed, HeaderEnd, k) && r.value.1 == framed[k + 4..] &&
                  forall j :: 0 <= j < k ==> !OccursAt(framed, HeaderEnd, j)
  {
    match IndexOf(framed, HeaderEnd)
    case None =>
    case Some(k) =>
      var r := Part(framed);
      if r.Ok? {
        assert r.value.1 == framed[k + 4..];
      }
  }

  /** `parse_form_data(request_body, request_headers)`: the part's headers and
      its content. */
  function FormData(body: Option<seq<byte>>, headers: Dict<string, string>): (r: Result<(Dict<string, string>, seq<byte>)>)
    ensures body.None? ==> r == Err(BadRequest(MissingBody))
    ensures body.Some? && Boundary(headers).Err? ==> r == Err(Boundary(headers).error)
    ensures body.Some? && Boundary(headers).Ok? ==> r == Part(Unframe(body.value, Boundary(headers).value))
  {
    if body.None? then Err(BadRequest(MissingBody))
    else
      match Boundary(headers)
      case Err(e) => Err(e)
      case Ok(boundary) => Part(Unframe(body.value, boundary))
  }

  /** The imperative `parse_form_data`, whose loop fills the part's header
      dictionary one line at a time. */
  method ParseFormData(body: Option<seq<byte>>, headers: Dict<string, string>) returns (r: Result<(Dict<string, string>, seq<byte>)>)
    ensures r == FormData(body, headers)
  {
    if body.None? {
      return Err(BadRequest(MissingBody));
    }
    var contentType := TryRetrieve(headers, "Content-Type", MissingContentType);
    if contentType.Err? {
      return Err(contentType.error);
    }
    var parameters := ParseHeaderValueParameters(contentType.value);
    if parameters.Err? {
      return Err(parameters.error);
    }
    var boundary := TryRetrieve(parameters.value.1, "boundary", MissingBoundary);
    if boundary.Err? {
      return Err(boundary.error);
    }
    var framed := RemoveSuffix(RemovePrefix(body.value, Opening(boundary.value)), Closing(boundary.value));
    var separator := IndexOf(framed, HeaderEnd);
    if separator.None? {
      return Err(BadRequest(InvalidStructure));
    }
    var content := framed[separator.value + 4..];
    var lines := Split(framed[..separator.value], CRLF);
    var partHeaders: Dict<string, string> := [];
    ghost var items: seq<(string, string)> := [];
    for i := 0 to |lines|
      invariant MapAll(PartHeader, lines[..i]) == Ok(items)
      invariant partHeaders == SetAll([], items)
    {
      var text := DecodeAscii(lines[i]);
      if text.None? {
        MapAllSnoc(PartHeader, lines, i, items);
        return Err(UnicodeDecodeError);
      }
      var header := ParseHeader(text.value);
      if header.Err? {
        MapAllSnoc(PartHeader, lines, i, items);
        return Err(header.error);
      }
      MapAllSnoc(PartHeader, lines, i, items);
      SetAllSnoc([], items, header.value);
      partHeaders := Set(partHeaders, header.value.0, header.value.1);
      items := items + [header.value];
    }
    assert lines[..|lines|] == lines;
    r := Ok((partHeaders, content));
  }

  // ---------------------------------------------------------------------
  // What a client sends: the part written out by a form submission

  /** The header lines of the part, one per field. */
  function FieldLines(fields: seq<(string, string)>): (r: seq<seq<byte>>)
    ensures |r| == |fields| && forall i :: 0 <= i < |fields| ==> r[i] == Utf8(FieldText(fields[i]))
  {
    seq(|fields|, i requires 0 <= i < |fields| => Utf8(FieldText(fields[i])))
  }

  /** The part's header block: its header lines joined by CRLF. */
  function PartBlock(fields: seq<(string, string)>): seq<byte>
    requires |fields| >= 1
  {
    Join(FieldLines(fields), CRLF)
  }

  /** A well-formed header line is a non-empty line of ASCII bytes without
      CR or LF, and it reads back as the field it was written from. */
  lemma FieldTextRead(field: (string, string))
    requires WellFormedField(field.0, field.1)
    ensures Utf8(FieldText(field)) != [] && CR !in Utf8(FieldText(field))
    ensures PartHeader(Utf8(FieldText(field))) == Ok(field)
  {
    var text := field.0 + ": " + field.1;
    assert forall i :: 0 <= i < |field.0| ==> text[i] == field.0[i];
    assert text[|field.0|] == ':' && text[|field.0| + 1] == ' ';
    assert forall i :: |field.0| + 2 <= i < |text| ==> text[i] == field.1[i - |field.0| - 2];
    assert IsLineText(text);
    LineTextBytes(text);
    ParseHeaderLine(field.0, field.1);
  }

  /** Every CR of the block has, two bytes later and still inside the block,
      a byte other than CR: no blank line starts inside it. */
  predicate NoBlankLineStart(block: seq<byte>) {
    forall j :: 0 <= j < |block| && block[j] == CR ==> j + 2 < |block| && block[j + 2] != CR
  }

  /** Non-empty lines without CR, joined by CRLF, start no blank line. */
  lemma {:induction false} JoinedLinesNoBlank(lines: seq<seq<byte>>)
    requires |lines| >= 1 && forall i :: 0 <= i < |lines| ==> lines[i] != [] && CR !in lines[i]
    ensures NoBlankLineStart(Join(lines, CRLF))
    decreases |lines|
  {
    var block := Join(lines, CRLF);
    var n := |lines[0]|;
    if |lines| == 1 {
      assert block == lines[0];
    } else {
      var rest := Join(lines[1..], CRLF);
      JoinedLinesNoBlank(lines[1..]);
      assert block == lines[0] + CRLF + rest;
      assert rest[0] == lines[1][0];
      assert forall j :: 0 <= j < n ==> block[j] == lines[0][j];
      assert block[n] == CR && block[n + 1] == LF && block[n + 2] == rest[0];
      assert forall j :: n + 2 <= j < |block| ==> block[j] == rest[j - n - 2];
    }
  }

  /** After such a block, the blank line written next is the first one. */
  lemma FirstBlankLine(block: seq<byte>, rest: seq<byte>)
    requires NoBlankLineStart(block)
    ensures IndexOf(block + HeaderEnd + rest, HeaderEnd) == Some(|block|)
  {
    var s := block + HeaderEnd + rest;
    forall j | 0 <= j < |block| ensures !OccursAt(s, HeaderEnd, j) {
      OccursAtElement(s, HeaderEnd, j, 0);
      OccursAtElement(s, HeaderEnd, j, 2);
      assert s[j] == block[j];
      assert j + 2 < |block| ==> s[j + 2] == block[j + 2];
    }
    IndexOfAfter(block, HeaderEnd, rest);
  }

  /** Unframing removes exactly the two delimiters around the part. */
  lemma UnframeFramed(boundary: string, framed: seq<byte>)
    ensures Unframe(Opening(boundary) + framed + Closing(boundary), boundary) == framed
  {
    var body := Opening(boundary) + framed + Closing(boundary);
    assert body == Opening(boundary) + (framed + Closing(boundary));
    assert RemovePrefix(body, Opening(boundary)) == framed + Closing(boundary);
  }

  /** Well-formed header lines parse back to their fields. */
  lemma FieldLinesParse(fields: seq<(string, string)>)
    requires forall i :: 0 <= i < |fields| ==> WellFormedField(fields[i].0, fields[i].1)
    ensures MapAll(PartHeader, FieldLines(fields)) == Ok(fields)
    ensures forall i :: 0 <= i < |fields| ==> FieldLines(fields)[i] != [] && CR !in FieldLines(fields)[i]
  {
    var lines := FieldLines(fields);
    forall i | 0 <= i < |fields|
      ensures lines[i] != [] && CR !in lines[i] && PartHeader(lines[i]) == Ok(fields[i])
    {
      FieldTextRead(fields[i]);
    }
    MapAllOk(PartHeader, lines, fields);
  }

  /** A block that starts no blank line, followed by a blank line, yields
      the parsed lines of the block and everything after the blank line. */
  lemma PartAfterBlock(block: seq<byte>, content: seq<byte>, items: seq<(string, string)>)
    requires NoBlankLineStart(block)
    requires MapAll(PartHeader, Split(block, CRLF)) == Ok(items)
    ensures Part(block + HeaderEnd + content) == Ok((SetAll([], items), content))
  {
    var framed := block + HeaderEnd + content;
    FirstBlankLine(block, content);
    assert framed[..|block|] == block && framed[|block| + 4..] == content;
  }

  /** A part written with well-formed, distinct header fields decodes to
      exactly those fields, in order, and exactly its content. */
  lemma PartRoundTrip(fields: seq<(string, string)>, content: seq<byte>)
    requires |fields| >= 1 && DistinctKeys(fields)
    requires forall i :: 0 <= i < |fields| ==> WellFormedField(fields[i].0, fields[i].1)
    ensures Part(PartBlock(fields) + HeaderEnd + content) == Ok((fields, content))
  {
    FieldLinesParse(fields);
    JoinedLinesNoBlank(FieldLines(fields));
    SplitJoin(FieldLines(fields), CRLF);
    PartAfterBlock(PartBlock(fields), content, fields);
    assert [] + fields == fields;
    SetAllFresh([], fields);
  }

  /** The request body a form submission sends, with the part between the
      opening and the close delimiter of the request's boundary, decodes to
      the part's fields and content. */
  lemma FormDataRoundTrip(headers: Dict<string, string>, boundary: string, fields: seq<(string, string)>, content: seq<byte>)
    requires Boundary(headers) == Ok(boundary)
    requires |fields| >= 1 && DistinctKeys(fields)
    requires forall i :: 0 <= i < |fields| ==> WellFormedField(fields[i].0, fields[i].1)
    ensures FormData(Some(Opening(boundary) + (PartBlock(fields) + HeaderEnd + content) + Closing(boundary)), headers)
            == Ok((fields, content))
  {
    UnframeFramed(boundary, PartBlock(fields) + HeaderEnd + content);
    PartRoundTrip(fields, content);
  }
}
