/** The header and value grammar of the server: OWS trimming (section 3.2.3
    of RFC 7230), header field lines (section 3.2 of RFC 7230), the query part
    of a request target, and `;`-separated header parameters with
    quoted-string values (compare the quoted-pair rule, section 3.2.6 of
    RFC 7230). */
module Grammar {
  import opened Basics
  import opened Seqs
  import opened Dicts
  import opened Octets

  // ---------------------------------------------------------------------
  // trim_linear_whitespaces

  /** OWS characters: space and horizontal tab. */
  predicate IsOws(c: char) {
    c == ' ' || c == '\t'
  }

  predicate AllOws(s: string) {
    forall i :: 0 <= i < |s| ==> IsOws(s[i])
  }

  /** Neither starts nor ends with OWS. */
  predicate IsTrimmed(s: string) {
    s == [] || (!IsOws(s[0]) && !IsOws(s[|s| - 1]))
  }

  /** The first index at or after `i` that is not OWS. */
  function ContentStart(s: string, i: nat): (r: nat)
    requires i <= |s|
    ensures i <= r <= |s| && AllOws(s[i..r]) && (r < |s| ==> !IsOws(s[r]))
    decreases |s| - i
  {
    if i < |s| && IsOws(s[i]) then ContentStart(s, i + 1) else i
  }

  /** The index after the last non-OWS character in `s[lo..j]`, or `lo`. */
  function ContentEnd(s: string, lo: nat, j: nat): (r: nat)
    requires lo <= j <= |s|
    ensures lo <= r <= j && AllOws(s[r..j]) && (r > lo ==> !IsOws(s[r - 1]))
    decreases j
  {
    if j > lo && IsOws(s[j - 1]) then
      var r := ContentEnd(s, lo, j - 1);
      assert s[r..j] == s[r..j - 1] + [s[j - 1]];
      r
    else j
  }

  /** `trim_linear_whitespaces(s)`, that is `s.strip(" \t")`: the part of `s`
      left after removing the OWS at both ends. */
  function TrimOws(s: string): (r: string)
    ensures IsTrimmed(r) && |r| <= |s|
    ensures exists i :: 0 <= i <= |s| - |r| && s[i..i + |r|] == r && AllOws(s[..i]) && AllOws(s[i + |r|..])
  {
    var i := ContentStart(s, 0);
    var j := ContentEnd(s, i, |s|);
    TrimBounds(s, i, j);
    assert s[i..i + (j - i)] == s[i..j];
    s[i..j]
  }

  /** The OWS before `i` and after `j` surround trimmed text. */
  lemma TrimBounds(s: string, i: nat, j: nat)
    requires i == ContentStart(s, 0) && j == ContentEnd(s, i, |s|)
    ensures IsTrimmed(s[i..j]) && AllOws(s[..i]) && AllOws(s[j..])
  {
    assert s[..i] == s[0..i];
    assert s[j..] == s[j..|s|];
    if i < j {
      assert s[i..j][0] == s[i] && s[i..j][j - i - 1] == s[j - 1];
    }
  }

  /** Trimming leaves trimmed text alone. */
  lemma TrimTrimmed(s: string)
    requires IsTrimmed(s)
    ensures TrimOws(s) == s
  {
    assert ContentStart(s, 0) == 0;
    assert ContentEnd(s, 0, |s|) == |s|;
  }

  /** Trimming twice is trimming once. */
  lemma TrimIdempotent(s: string)
    ensures TrimOws(TrimOws(s)) == TrimOws(s)
  {
    TrimTrimmed(TrimOws(s));
  }

  /** Trimming removes exactly the OWS that surrounds trimmed text. */
  lemma {:induction false} TrimAround(a: string, t: string, b: string)
    requires AllOws(a) && IsTrimmed(t) && AllOws(b)
    ensures TrimOws(a + t + b) == t
  {
    var s := a + t + b;
    var i := ContentStart(s, 0);
    var j := ContentEnd(s, i, |s|);
    if t == [] {
      assert AllOws(s);
    } else {
      assert forall k :: 0 <= k < |a| ==> s[k] == a[k];
      assert s[|a|] == t[0];
      StartAfterOws(s, 0, |a|);
      assert forall k :: |a| + |t| <= k < |s| ==> s[k] == b[k - |a| - |t|];
      assert s[|a| + |t| - 1] == t[|t| - 1];
      EndBeforeOws(s, |a|, |s|, |a| + |t|);
      assert s[i..j] == t;
    }
  }

  /** Content starts right after leading OWS, at a non-OWS character. */
  lemma {:induction false} StartAfterOws(s: string, i: nat, e: nat)
    requires i <= e < |s| && !IsOws(s[e])
    requires forall k :: i <= k < e ==> IsOws(s[k])
    ensures ContentStart(s, i) == e
    decreases e - i
  {
    if i < e {
      StartAfterOws(s, i + 1, e);
    }
  }

  /** Content ends right before trailing OWS, after a non-OWS character. */
  lemma {:induction false} EndBeforeOws(s: string, lo: nat, j: nat, e: nat)
    requires lo < e <= j <= |s| && !IsOws(s[e - 1])
    requires forall k :: e <= k < j ==> IsOws(s[k])
    ensures ContentEnd(s, lo, j) == e
    decreases j
  {
    if e < j {
      EndBeforeOws(s, lo, j - 1, e);
    }
  }

  // ---------------------------------------------------------------------
  // parse_header

  const MissingColon := "Missing colon in header"

  /** The text of a header line, `name: value`, as senders write it. */
  function FieldText(field: (string, string)): string {
    field.0 + ": " + field.1
  }

  /** `parse_header(line)`: the name is everything before the first colon;
      the value is what follows the colon after skipping exactly one more
      character, then trimmed. */
  function ParseHeader(line: string): (r: Result<(string, string)>)
    ensures r.Err? <==> ':' !in line
    ensures r.Err? ==> r.error == BadRequest(MissingColon)
    ensures r.Ok? ==> var name := r.value.0;
      |name| < |line| && line[..|name|] == name && line[|name|] == ':' && ':' !in name
    ensures r.Ok? ==> r.value.1 == TrimOws(SliceFrom(line, |r.value.0| + 2))
  {
    match Find(line, ':')
    case None => Err(BadRequest(MissingColon))
    case Some(i) => Ok((line[..i], TrimOws(SliceFrom(line, i + 2))))
  }

  /** A header field a sender can write on one line and `parse_header` reads
      back: a colon-free name and a value without surrounding OWS. */
  predicate WellFormedField(name: string, value: string) {
    IsLineText(name) && ':' !in name && IsLineText(value) && IsTrimmed(value)
  }

  /** A header written as `name: value` parses back to its name and value. */
  lemma ParseHeaderLine(name: string, value: string)
    requires ':' !in name && IsTrimmed(value)
    ensures ParseHeader(name + ": " + value) == Ok((name, value))
  {
    var line := name + ": " + value;
    assert line[|name|] == ':';
    assert line[..|name|] == name;
    assert Find(line, ':') == Some(|name|);
    assert SliceFrom(line, |name| + 2) == value;
    TrimTrimmed(value);
  }

  /** The character right after the colon is dropped whatever it is, so
      `A:bc` has the value `c`. */
  lemma ParseHeaderSkipsOne(name: string, c: char, rest: string)
    requires ':' !in name
    ensures ParseHeader(name + ":" + [c] + rest) == Ok((name, TrimOws(rest)))
  {
    var line := name + ":" + [c] + rest;
    assert line[|name|] == ':';
    assert line[..|name|] == name;
    assert Find(line, ':') == Some(|name|);
    assert SliceFrom(line, |name| + 2) == rest;
  }

  /** A colon with nothing after it gives the empty value, because the
      slice past the end is empty. */
  lemma ParseHeaderEmptyValue(name: string)
    requires ':' !in name
    ensures ParseHeader(name + ":") == Ok((name, ""))
  {
    var line := name + ":";
    assert line[|name|] == ':';
    assert line[..|name|] == name;
    assert Find(line, ':') == Some(|name|);
    assert SliceFrom(line, |name| + 2) == "";
  }

  // ---------------------------------------------------------------------
  // parse_request_path

  /** One `&`-separated query segment: the text before its first `=` and the
      text after it, or the whole segment and no value. */
  function QueryParameter(segment: string): (r: (string, Option<string>))
    ensures '=' !in segment ==> r == (segment, None)
    ensures '=' in segment ==> r.1.Some? && '=' !in r.0 && segment == r.0 + "=" + r.1.value
  {
    match Find(segment, '=')
    case None => (segment, None)
    case Some(k) =>
      assert segment == segment[..k] + "=" + segment[k + 1..];
      (segment[..k], Some(segment[k + 1..]))
  }

  /** The query segments of `query`, in order. */
  function QueryItems(query: string): (r: seq<(string, Option<string>)>)
    ensures var segments := Split(query, "&");
      |r| == |segments| && forall i :: 0 <= i < |r| ==> r[i] == QueryParameter(segments[i])
  {
    var segments := Split(query, "&");
    seq(|segments|, i requires 0 <= i < |segments| => QueryParameter(segments[i]))
  }

  /** A query item written back as the segment it came from: `key`, or
      `key=value`. */
  function QuerySegment(item: (string, Option<string>)): string {
    match item.1
    case None => item.0
    case Some(value) => item.0 + "=" + value
  }

  /** The query items lose nothing: writing each back and joining them with
      `&` gives the query string again. */
  lemma QueryItemsRebuild(query: string)
    ensures var items := QueryItems(query);
      |items| >= 1 && Join(seq(|items|, i requires 0 <= i < |items| => QuerySegment(items[i])), "&") == query
  {
    var items := QueryItems(query);
    var segments := Split(query, "&");
    var rebuilt := seq(|items|, i requires 0 <= i < |items| => QuerySegment(items[i]));
    assert rebuilt == segments;
    JoinSplit(query, "&");
  }

  /** `parse_request_path(path)`: the route before the first `?` and the
      dictionary that the query segments after it fill in order. */
  function RequestPath(path: string): (r: (string, Dict<string, Option<string>>))
    ensures '?' !in path ==> r == (path, [])
    ensures '?' in path ==> var route := r.0;
      |route| < |path| && path[..|route|] == route && path[|route|] == '?' && '?' !in route &&
      r.1 == SetAll([], QueryItems(path[|route| + 1..]))
  {
    match Find(path, '?')
    case None => (path, [])
    case Some(q) => (path[..q], SetAll([], QueryItems(path[q + 1..])))
  }

  /** The imperative loop of `parse_request_path`, filling the dictionary one
      segment at a time. */
  method ParseRequestPath(path: string) returns (route: string, parameters: Dict<string, Option<string>>)
    ensures (route, parameters) == RequestPath(path)
  {
    var questionMark := Find(path, '?');
    if questionMark.None? {
      return path, [];
    }
    route := path[..questionMark.value];
    var query := path[questionMark.value + 1..];
    var segments := Split(query, "&");
    ghost var items := QueryItems(query);
    parameters := [];
    for i := 0 to |segments|
      invariant parameters == SetAll([], items[..i])
    {
      var segment := segments[i];
      var equalSign := Find(segment, '=');
      var key: string, value: Option<string>;
      if equalSign.None? {
        key, value := segment, None;
      } else {
        key, value := segment[..equalSign.value], Some(segment[equalSign.value + 1..]);
      }
      assert (key, value) == QueryParameter(segment) == items[i];
      SetAllPrefix([], items, i);
      parameters := Set(parameters, key, value);
    }
    assert items[..|segments|] == items;
  }

  /** The value of a query key is that of its last segment: a later
      duplicate overwrites an earlier one. */
  lemma RequestPathLastWins(path: string, i: nat)
    requires '?' in path
    requires var items := QueryItems(path[|RequestPath(path).0| + 1..]);
      i < |items| && forall j :: i < j < |items| ==> items[j].0 != items[i].0
    ensures var items := QueryItems(path[|RequestPath(path).0| + 1..]);
      Lookup(RequestPath(path).1, items[i].0) == Some(items[i].1)
  {
    SetAllLastWins([], QueryItems(path[|RequestPath(path).0| + 1..]), i);
  }

  // ---------------------------------------------------------------------
  // parse_header_value_parameters

  const TrailingBackslash := "Invalid backslash at the end of string"
  const MissingEqualSign := "Invalid header parameter syntax"

  /** The unescaping of quoted-string content: each `\c` becomes `c`; a
      backslash with nothing after it is refused. */
  function Unescape(s: string): (r: Result<string>)
    ensures r.Ok? ==> |r.value| <= |s|
    ensures r.Err? ==> r.error == BadRequest(TrailingBackslash)
    ensures '\\' !in s ==> r == Ok(s)
    decreases |s|
  {
    if s == [] then Ok([])
    else if s[0] == '\\' then
      if |s| == 1 then Err(BadRequest(TrailingBackslash))
      else
        match Unescape(s[2..])
        case Err(e) => Err(e)
        case Ok(t) => Ok([s[1]] + t)
    else
      match Unescape(s[1..])
      case Err(e) => Err(e)
      case Ok(t) =>
        assert s == [s[0]] + s[1..];
        Ok([s[0]] + t)
  }

  /** The quoted-pair escaping a sender applies: a backslash before every
      backslash and double quote. */
  function Escape(t: string): (r: string)
    ensures |r| >= |t|
  {
    if t == [] then []
    else (if t[0] == '\\' || t[0] == '"' then ['\\', t[0]] else [t[0]]) + Escape(t[1..])
  }

  /** Unescaping inverts escaping. */
  lemma {:induction false} UnescapeEscape(t: string)
    ensures Unescape(Escape(t)) == Ok(t)
    decreases |t|
  {
    if t != [] {
      UnescapeEscape(t[1..]);
      var e := Escape(t);
      if t[0] == '\\' || t[0] == '"' {
        assert e[0] == '\\' && e[1] == t[0] && e[2..] == Escape(t[1..]);
      } else {
        assert e[0] == t[0] && e[1..] == Escape(t[1..]);
      }
      assert t == [t[0]] + t[1..];
    }
  }

  /** The length of the run of backslashes that ends `s`. */
  function TrailingBackslashes(s: string): (r: nat)
    ensures r <= |s|
    ensures forall i :: |s| - r <= i < |s| ==> s[i] == '\\'
    ensures r < |s| ==> s[|s| - 1 - r] != '\\'
  {
    if s == [] || s[|s| - 1] != '\\' then 0 else 1 + TrailingBackslashes(s[..|s| - 1])
  }

  /** Dropping the first `k` characters shortens the final run only when
      the run reaches into them. */
  lemma {:induction false} TrailingBackslashesFrom(s: string, k: nat)
    requires k <= |s|
    ensures TrailingBackslashes(s[k..]) ==
      if TrailingBackslashes(s) <= |s| - k then TrailingBackslashes(s) else |s| - k
    decreases |s|
  {
    if k < |s| && s[|s| - 1] == '\\' {
      var init := s[..|s| - 1];
      TrailingBackslashesFrom(init, k);
      assert s[k..][..|s| - k - 1] == init[k..];
    }
  }

  /** Unescaping fails exactly when the input ends in an odd run of
      backslashes: the pairs of that run are escapes, and its last backslash
      is left with nothing to escape. */
  lemma {:induction false} UnescapeFails(s: string)
    ensures Unescape(s).Err? <==> TrailingBackslashes(s) % 2 == 1
    decreases |s|
  {
    if s != [] {
      if s[0] == '\\' {
        if |s| > 1 {
          UnescapeFails(s[2..]);
          TrailingBackslashesFrom(s, 2);
        }
      } else {
        UnescapeFails(s[1..]);
        TrailingBackslashesFrom(s, 1);
      }
    }
  }

  /** In particular, escaped text followed by one more backslash fails. */
  lemma {:induction false} UnescapeTrailing(t: string)
    ensures Unescape(Escape(t) + "\\") == Err(BadRequest(TrailingBackslash))
    decreases |t|
  {
    if t != [] {
      UnescapeTrailing(t[1..]);
      var e := Escape(t) + "\\";
      if t[0] == '\\' || t[0] == '"' {
        assert e[0] == '\\' && e[2..] == Escape(t[1..]) + "\\";
      } else {
        assert e[0] == t[0] && e[1..] == Escape(t[1..]) + "\\";
      }
    }
  }

  /** The content of a quoted-string value: `value.removeprefix('"')` (the
      caller has seen the opening quote) then `.removesuffix('"')`. */
  function QuotedContent(value: string): (r: string)
    requires value != [] && value[0] == '"'
    ensures |r| < |value|
  {
    RemoveSuffix(value[1..], "\"")
  }

  /** One `;`-separated parameter: trimmed, split at its first `=`, and its
      value unquoted and unescaped when it starts with a double quote. An
      empty value fails with the IndexError of `value[0]`. */
  function ParseParameter(segment: string): (r: Result<(string, string)>)
    ensures r.Err? ==>
      r.error in {BadRequest(MissingEqualSign), IndexError, BadRequest(TrailingBackslash)}
  {
    var p := TrimOws(segment);
    match Find(p, '=')
    case None => Err(BadRequest(MissingEqualSign))
    case Some(k) =>
      var name, value := p[..k], p[k + 1..];
      if value == [] then Err(IndexError)
      else if value[0] != '"' then Ok((name, value))
      else
        match Unescape(QuotedContent(value))
        case Err(e) => Err(e)
        case Ok(u) => Ok((name, u))
  }

  /** What a parameter segment yields: without `=` a BadRequest; with
      nothing after the first `=` the IndexError of `value[0]`; otherwise
      the name before the first `=` of the trimmed segment, and its raw value
      kept verbatim when unquoted, or unquoted and unescaped (so strictly
      shorter) when quoted. */
  lemma ParameterShape(segment: string)
    ensures '=' !in TrimOws(segment) ==> ParseParameter(segment) == Err(BadRequest(MissingEqualSign))
    ensures var p := TrimOws(segment);
      Find(p, '=').Some? ==> (Find(p, '=').value == |p| - 1 <==> ParseParameter(segment) == Err(IndexError))
    ensures var r := ParseParameter(segment);
      r.Ok? ==> var p, name := TrimOws(segment), r.value.0;
      |name| < |p| && p[..|name|] == name && p[|name|] == '=' && '=' !in name &&
      var raw := p[|name| + 1..];
      raw != [] && (raw[0] != '"' ==> r.value.1 == raw) && (raw[0] == '"' ==> |r.value.1| < |raw|)
  {
  }

  /** The first `=` of `name=rest` is the one after a name free of `=`. */
  lemma FindEquals(name: string, rest: string)
    requires '=' !in name
    ensures Find(name + ['='] + rest, '=') == Some(|name|)
  {
    var s := name + ['='] + rest;
    assert s[..|name|] == name && s[|name|] == '=';
  }

  /** The content between a pair of double quotes. */
  lemma QuotedContentOf(t: string)
    ensures QuotedContent(['"'] + t + ['"']) == t
  {
    var raw := ['"'] + t + ['"'];
    assert raw[1..] == t + ['"'];
    assert EndsWith(raw[1..], "\"");
  }

  /** A parameter written as `name="..."` with its value escaped parses back
      to the name and the original value. */
  lemma ParseQuotedParameter(name: string, value: string)
    requires name != [] && !IsOws(name[0]) && '=' !in name
    ensures ParseParameter(name + "=\"" + Escape(value) + "\"") == Ok((name, value))
  {
    var raw := ['"'] + Escape(value) + ['"'];
    QuotedSegment(name, Escape(value));
    QuotedContentOf(Escape(value));
    UnescapeEscape(value);
    ParseSegment(name, raw);
  }

  lemma QuotedSegment(name: string, escaped: string)
    requires name != [] && !IsOws(name[0])
    ensures name + "=\"" + escaped + "\"" == name + ['='] + (['"'] + escaped + ['"'])
    ensures IsTrimmed(name + ['='] + (['"'] + escaped + ['"']))
  {
    var segment := name + ['='] + (['"'] + escaped + ['"']);
    assert segment[0] == name[0] && segment[|segment| - 1] == '"';
  }

  /** A trimmed segment `name=raw` whose name is free of `=` splits at the
      `=` after the name. */
  lemma ParseSegment(name: string, raw: string)
    requires IsTrimmed(name + ['='] + raw) && '=' !in name && raw != []
    ensures raw[0] != '"' ==> ParseParameter(name + ['='] + raw) == Ok((name, raw))
    ensures raw[0] == '"' && Unescape(QuotedContent(raw)).Ok? ==>
      ParseParameter(name + ['='] + raw) == Ok((name, Unescape(QuotedContent(raw)).value))
  {
    var segment := name + ['='] + raw;
    TrimTrimmed(segment);
    FindEquals(name, raw);
    assert segment[..|name|] == name && segment[|name| + 1..] == raw;
  }

  /** `parse_header_value_parameters(s)`: the trimmed text before the first
      `;` and the dictionary the following parameters fill in order. */
  function HeaderValueParameters(s: string): (r: Result<(string, Dict<string, string>)>)
    ensures var segments := Split(s, ";");
      r.Ok? <==> forall i :: 1 <= i < |segments| ==> ParseParameter(segments[i]).Ok?
    ensures r.Ok? ==> r.value.0 == TrimOws(Split(s, ";")[0]) && ';' !in r.value.0
    ensures r.Ok? ==> DistinctKeys(r.value.1)
  {
    var segments := Split(s, ";");
    var main := TrimOws(segments[0]);
    assert ';' !in main by {
      forall k | 0 <= k < |segments[0]| ensures segments[0][k] != ';' {
        OccursSingle(segments[0], ';', k);
      }
    }
    var rest := segments[1..];
    assert forall i :: 1 <= i < |segments| ==> segments[i] == rest[i - 1];
    match MapAll(ParseParameter, rest)
    case Err(e) => Err(e)
    case Ok(items) => Ok((main, SetAll([], items)))
  }

  /** The first parameter segment that fails decides the failure; in
      particular a segment without `=` raises BadRequest. */
  lemma ParametersFirstFailure(s: string, i: nat)
    requires var segments := Split(s, ";");
      1 <= i < |segments| && ParseParameter(segments[i]).Err? &&
      forall j :: 1 <= j < i ==> ParseParameter(segments[j]).Ok?
    ensures HeaderValueParameters(s) == Err(ParseParameter(Split(s, ";")[i]).error)
  {
    var segments := Split(s, ";");
    var rest := segments[1..];
    forall j | 0 <= j < i - 1 ensures ParseParameter(rest[j]).Ok? {
      assert rest[j] == segments[j + 1];
    }
    assert rest[i - 1] == segments[i];
    MapAllFirstErr(ParseParameter, rest, i - 1);
  }

  /** The value of a parameter name is that of the last segment carrying it. */
  lemma ParametersLastWins(s: string, i: nat, name: string, value: string)
    requires HeaderValueParameters(s).Ok?
    requires var segments := Split(s, ";");
      1 <= i < |segments| && ParseParameter(segments[i]) == Ok((name, value)) &&
      forall j :: i < j < |segments| ==> ParseParameter(segments[j]).value.0 != name
    ensures Lookup(HeaderValueParameters(s).value.1, name) == Some(value)
  {
    var segments := Split(s, ";");
    var items := ParameterItems(s);
    assert items[i - 1] == (name, value) by {
      assert ParseParameter(segments[i]) == Ok(items[i - 1]);
    }
    forall j | i - 1 < j < |items| ensures items[j].0 != items[i - 1].0 {
      assert ParseParameter(segments[j + 1]) == Ok(items[j]);
    }
    SetAllLastWins([], items, i - 1);
  }

  /** The parameters parsed one per segment after the first, in order. */
  lemma ParameterItems(s: string) returns (items: seq<(string, string)>)
    requires HeaderValueParameters(s).Ok?
    ensures |items| == |Split(s, ";")| - 1
    ensures HeaderValueParameters(s).value.1 == SetAll([], items)
    ensures forall j :: 0 <= j < |items| ==> ParseParameter(Split(s, ";")[j + 1]) == Ok(items[j])
  {
    var segments := Split(s, ";");
    var rest := segments[1..];
    var all := MapAll(ParseParameter, rest);
    assert all.Ok?;
    items := all.value;
    forall j | 0 <= j < |items| ensures ParseParameter(segments[j + 1]) == Ok(items[j]) {
      assert rest[j] == segments[j + 1];
    }
  }

  /** `value_after_escaping` built by the `while i < len(value)` loop of
      `parse_header_value_parameters`. */
  method UnescapeQuoted(value: string) returns (r: Result<string>)
    ensures r == Unescape(value)
  {
    var unescaped := "";
    var i := 0;
    assert value[0..] == value;
    PrefixedEmpty(Unescape(value));
    while i < |value|
      invariant 0 <= i <= |value|
      invariant Unescape(value) == Prefixed(unescaped, Unescape(value[i..]))
    {
      var tail := value[i..];
      assert tail[0] == value[i];
      if value[i] == '\\' {
        if i == |value| - 1 {
          assert |tail| == 1;
          return Err(BadRequest(TrailingBackslash));
        }
        assert tail[2..] == value[i + 2..] && tail[1] == value[i + 1];
        PrefixedAppend(unescaped, value[i + 1], Unescape(value[i + 2..]));
        unescaped := unescaped + [value[i + 1]];
        i := i + 2;
      } else {
        assert tail[1..] == value[i + 1..];
        PrefixedAppend(unescaped, value[i], Unescape(value[i + 1..]));
        unescaped := unescaped + [value[i]];
        i := i + 1;
      }
    }
    assert value[i..] == [];
    assert unescaped + [] == unescaped;
    r := Ok(unescaped);
  }

  /** `prefix` in front of an unescaped result; failures pass through. */
  function Prefixed(prefix: string, r: Result<string>): Result<string> {
    match r
    case Ok(t) => Ok(prefix + t)
    case Err(e) => Err(e)
  }

  lemma PrefixedEmpty(r: Result<string>)
    ensures Prefixed("", r) == r
  {
    if r.Ok? { assert "" + r.value == r.value; }
  }

  lemma PrefixedAppend(prefix: string, c: char, r: Result<string>)
    ensures Prefixed(prefix, Prefixed([c], r)) == Prefixed(prefix + [c], r)
  {
    if r.Ok? { assert prefix + ([c] + r.value) == prefix + [c] + r.value; }
  }

  /** The imperative `parse_header_value_parameters`: a loop over the
      parameter segments that fills the dictionary in place. */
  method ParseHeaderValueParameters(s: string) returns (r: Result<(string, Dict<string, string>)>)
    ensures r == HeaderValueParameters(s)
  {
    var valueParts := Split(s, ";");
    var mainValue := TrimOws(valueParts[0]);
    var rest := valueParts[1..];
    var parameters: Dict<string, string> := [];
    ghost var items: seq<(string, string)> := [];
    for i := 0 to |rest|
      invariant MapAll(ParseParameter, rest[..i]) == Ok(items)
      invariant parameters == SetAll([], items)
    {
      var parameter := TrimOws(rest[i]);
      var splitter := Find(parameter, '=');
      if splitter.None? {
        MapAllSnoc(ParseParameter, rest, i, items);
        return Err(BadRequest(MissingEqualSign));
      }
      var name, value := parameter[..splitter.value], parameter[splitter.value + 1..];
      if |value| == 0 {
        MapAllSnoc(ParseParameter, rest, i, items);
        return Err(IndexError);
      }
      if value[0] == '"' {
        var unescaped := UnescapeQuoted(QuotedContent(value));
        if unescaped.Err? {
          MapAllSnoc(ParseParameter, rest, i, items);
          return Err(unescaped.error);
        }
        value := unescaped.value;
      }
      assert ParseParameter(rest[i]) == Ok((name, value));
      MapAllSnoc(ParseParameter, rest, i, items);
      SetAllSnoc([], items, (name, value));
      parameters := Set(parameters, name, value);
      items := items + [(name, value)];
    }
    assert rest[..|rest|] == rest;
    r := Ok((mainValue, parameters));
  }
}
