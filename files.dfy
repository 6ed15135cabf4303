/** The file-name checks of the upload and image endpoints: whether a name
    can name a file on Windows, and the Content-Type served for a file. */
module Files {
  import opened Basics
  import opened Seqs
  import opened Dicts

  const ForbiddenCharacters := "/\\?*:|\"<>"
  const ForbiddenLastCharacters := ". "

  /** No character of `name` is forbidden anywhere in a file name. */
  predicate NoForbiddenCharacter(name: string) {
    forall i :: 0 <= i < |name| ==> name[i] !in ForbiddenCharacters
  }

  /** `is_valid_filename(name)` as written. The forbidden-character test
      runs first; then `name[-1]` is evaluated, which raises IndexError on
      the empty name before the length test after it is reached. */
  function IsValidFilename(name: string): (r: Result<bool>)
    ensures r.Err? <==> name == []
    ensures r.Err? ==> r.error == IndexError
    ensures r.Ok? ==> (r.value <==> NoForbiddenCharacter(name) && name[|name| - 1] !in ForbiddenLastCharacters)
  {
    if exists i :: 0 <= i < |name| && name[i] in ForbiddenCharacters then Ok(false)
    else if name == [] then Err(IndexError)
    else if name[|name| - 1] in ForbiddenLastCharacters then Ok(false)
    else Ok(true)
  }

  /** The empty name, which the length test was written to refuse, raises
      instead: the server answers 500 where it meant to answer 400. */
  lemma EmptyFilenameRaises()
    ensures IsValidFilename("") == Err(IndexError)
  {
  }

  /** `is_valid_filename` as evidently intended: the empty name is simply
      not a valid file name. */
  function IsValidFilenameIntended(name: string): (r: bool)
    ensures r <==> name != [] && NoForbiddenCharacter(name) && name[|name| - 1] !in ForbiddenLastCharacters
  {
    if exists i :: 0 <= i < |name| && name[i] in ForbiddenCharacters then false
    else if name == [] || name[|name| - 1] in ForbiddenLastCharacters then false
    else true
  }

  /** The two agree on every name except the empty one. */
  lemma IntendedAgrees(name: string)
    ensures name != [] ==> IsValidFilename(name) == Ok(IsValidFilenameIntended(name))
    ensures IsValidFilenameIntended([]) == false
  {
  }

  const PlaintextContentType := "text/plain"

  const ContentTypeByExtension: Dict<string, string> := [
    ("html", "text/html"), ("css", "text/css"), ("js", "application/javascript"),
    ("jpg", "image/jpeg"), ("gif", "image/gif"), ("png", "image/png"), ("ico", "image/x-icon")]

  /** `get_content_type(file_name)`: the type registered for the extension
      after the last dot, or plain text. */
  function GetContentType(fileName: string): (r: string)
    ensures '.' !in fileName ==> r == PlaintextContentType
    ensures r == PlaintextContentType || exists i :: 0 <= i < |ContentTypeByExtension| && ContentTypeByExtension[i].1 == r
  {
    match LastIndexOf(fileName, '.')
    case None => PlaintextContentType
    case Some(dot) =>
      match Lookup(ContentTypeByExtension, fileName[dot + 1..])
      case Some(contentType) => contentType
      case None => PlaintextContentType
  }

  /** The extension after the last dot decides the type, whatever dots the
      rest of the name holds. */
  lemma ContentTypeOfExtension(stem: string, extension: string)
    requires '.' !in extension
    ensures GetContentType(stem + "." + extension) ==
      match Lookup(ContentTypeByExtension, extension)
      case Some(contentType) => contentType
      case None => PlaintextContentType
  {
    var name := stem + "." + extension;
    assert name[|stem|] == '.' && name[|stem| + 1..] == extension;
    assert LastIndexOf(name, '.') == Some(|stem|);
  }
}
