/** `parsers/base.py`: the parser error, the helpers every parser shares
    (`clean_text`, `get_document_type`, `validate_file`, `create_document`)
    and the `ParserRegistry` with its first-match probing. */
module Base {
  import opened Outcomes
  import opened Text
  import opened Dates
  import opened Config
  import opened Models
  import opened Environment

  /** The one exception type of the parsers; kinds differ only by message. */
  datatype DocumentParserError = DocumentParserError(message: string)

  /** The keyword options of `parse` and `extract_text`, with their defaults. */
  datatype ParseOptions = ParseOptions(
    preserveLayout: bool, password: Option<string>, extractImages: bool, encoding: string)

  const DefaultParseOptions := ParseOptions(true, None, false, "utf-8")

  // ---------------------------------------------------------------------
  // clean_text

  /** The characters the control filter keeps: code 32 and above, newline, tab. */
  predicate Kept(c: char) { c as int >= 32 || c == '\n' || c == '\t' }

  /** `"".join(c for c in s if ord(c) >= 32 or c in "\n\t")` */
  function KeepPrintable(s: string): (r: string)
    ensures |r| <= |s|
  {
    if s == [] then []
    else (if Kept(s[0]) then [s[0]] else []) + KeepPrintable(s[1..])
  }

  /** The filter leaves printable text as it is. */
  lemma {:induction false} KeepPrintableOfPrintable(s: string)
    requires Printable(s)
    ensures KeepPrintable(s) == s
  {
    if s != [] {
      KeepPrintableOfPrintable(s[1..]);
    }
  }

  /** Text whose only whitespace character is the plain space. */
  predicate SpacesOnly(s: string) { forall i :: 0 <= i < |s| ==> s[i] == ' ' || !IsSpace(s[i]) }

  /** The filter keeps no control character of text whose only whitespace
      is the plain space: newline and tab, the two it spares, are not there. */
  lemma {:induction false} KeptOfSpacesOnly(s: string)
    requires SpacesOnly(s)
    ensures Printable(KeepPrintable(s))
  {
    if s != [] {
      KeptOfSpacesOnly(s[1..]);
      var head: string := if Kept(s[0]) then [s[0]] else [];
      var r := KeepPrintable(s);
      assert r == head + KeepPrintable(s[1..]);
      forall i | 0 <= i < |r| ensures r[i] as int >= 32 {
        if i < |head| { assert r[i] == s[0]; } else { assert r[i] == KeepPrintable(s[1..])[i - |head|]; }
      }
    }
  }

  /** Stripping keeps text printable. */
  lemma StripPrintable(s: string)
    requires Printable(s)
    ensures Printable(Strip(s))
  {
    var r := Strip(s);
    StripSlice(s);
    assert forall i :: 0 <= i < |r| ==> r[i] == s[LeadingSpace(s) + i];
  }

  /** `clean_text`: whitespace runs collapse to one space, control characters
      are dropped, and the ends are trimmed. The result is empty for empty
      input, has no character below code 32 (newlines and tabs included,
      since `split()` already removed them) and no whitespace at either end. */
  function CleanText(text: string): (r: string)
    ensures text == [] ==> r == []
    ensures Printable(r)
    ensures r == [] || (!IsSpace(r[0]) && !IsSpace(r[|r| - 1]))
  {
    if text == [] then []
    else
      CleanedPrintable(Tokens(text));
      Strip(KeepPrintable(Join(" ", Tokens(text))))
  }

  /** Filtering and stripping the tokens joined by single spaces leaves no
      character below code 32. */
  lemma CleanedPrintable(toks: seq<string>)
    requires forall t :: t in toks ==> IsToken(t)
    ensures Printable(Strip(KeepPrintable(Join(" ", toks))))
  {
    var joined := Join(" ", toks);
    JoinOfTokens(toks);
    assert SpacesOnly(joined);
    KeptOfSpacesOnly(joined);
    StripPrintable(KeepPrintable(joined));
  }

  /** Without non-whitespace control characters `clean_text` is exactly
      `" ".join(text.split())`. */
  lemma CleanTextOfNoControl(text: string)
    requires NoControl(text)
    ensures CleanText(text) == Join(" ", Tokens(text))
  {
    if text != [] {
      var toks := Tokens(text);
      JoinOfTokens(toks);
      var joined := Join(" ", toks);
      KeepPrintableOfPrintable(joined);
    }
  }

  /** On such inputs `clean_text` is idempotent. */
  lemma CleanTextIdempotent(text: string)
    requires NoControl(text)
    ensures CleanText(CleanText(text)) == CleanText(text)
  {
    var c := CleanText(text);
    CleanTextOfNoControl(text);
    CleanTextOfNoControl(c);
    TokensOfJoin(Tokens(text));
  }

  /** In general a second application can still change the text, but a
      third never does. */
  lemma CleanTextSettles(text: string)
    ensures CleanText(CleanText(CleanText(text))) == CleanText(CleanText(text))
  {
    CleanTextIdempotent(CleanText(text));
  }

  lemma {:induction false} KeepPrintableAppend(x: string, y: string)
    ensures KeepPrintable(x + y) == KeepPrintable(x) + KeepPrintable(y)
  {
    if x == [] {
      assert x + y == y;
    } else {
      var head: string := if Kept(x[0]) then [x[0]] else [];
      assert (x + y)[0] == x[0];
      assert (x + y)[1..] == x[1..] + y;
      KeepPrintableAppend(x[1..], y);
      assert KeepPrintable(x + y) == head + KeepPrintable(x[1..] + y);
      assert KeepPrintable(x) == head + KeepPrintable(x[1..]);
    }
  }

  lemma TokensAroundControl(a: string, c: char, b: string)
    requires IsToken(a) && IsToken(b) && !IsSpace(c)
    ensures Tokens(a + " " + [c] + " " + b) == [a, [c], b]
    ensures Join(" ", [a, [c], b]) == a + " " + [c] + " " + b
  {
    var rest := [c] + [' '] + b;
    Regroup(a, [c], b);
    TokensAroundSpace(a, ' ', rest);
    TokensAroundSpace([c], ' ', b);
    TokensOfToken(a);
    TokensOfToken([c]);
    TokensOfToken(b);
    ThreeWords(a, [c], b);
  }

  lemma Regroup(a: string, m: string, b: string)
    ensures a + " " + m + " " + b == a + [' '] + (m + [' '] + b)
  {
  }

  /** Three words joined by single spaces, and their list. */
  lemma ThreeWords(a: string, m: string, b: string)
    ensures [a] + ([m] + [b]) == [a, m, b]
    ensures Join(" ", [a, m, b]) == a + " " + m + " " + b
  {
    var toks := [a, m, b];
    assert toks[1..] == [m, b] && toks[1..][1..] == [b];
    assert Join(" ", toks[1..]) == m + " " + b;
    assert Join(" ", toks) == a + " " + (m + " " + b);
  }

  lemma KeepDropsOne(x: string, c: char, y: string)
    requires !Kept(c)
    ensures KeepPrintable(x + [c] + y) == KeepPrintable(x) + KeepPrintable(y)
  {
    var single: string := [c];
    assert single[1..] == [];
    assert KeepPrintable(single) == [];
    KeepPrintableAppend(x, single);
    KeepPrintableAppend(x + single, y);
  }

  lemma KeepDropsControl(a: string, c: char, b: string)
    requires Printable(a) && Printable(b) && !Kept(c)
    ensures KeepPrintable(a + " " + [c] + " " + b) == a + "  " + b
  {
    var x, y := a + " ", " " + b;
    assert a + " " + [c] + " " + b == x + [c] + y;
    KeepDropsOne(x, c, y);
    assert Printable(x) && Printable(y);
    KeepPrintableOfPrintable(x);
    KeepPrintableOfPrintable(y);
    assert x + y == a + "  " + b;
  }

  /** A control character that is not whitespace, standing alone between
      two words, survives `split()` as a word of its own; the filter then
      removes it and leaves two spaces behind. */
  lemma CleanTextLeavesDoubleSpace(a: string, c: char, b: string)
    requires IsToken(a) && IsToken(b) && Printable(a) && Printable(b)
    requires c as int < 32 && !IsSpace(c)
    ensures CleanText(a + " " + [c] + " " + b) == a + "  " + b
  {
    TokensAroundControl(a, c, b);
    KeepDropsControl(a, c, b);
    var kept := a + "  " + b;
    assert kept[0] == a[0] && kept[|kept| - 1] == b[|b| - 1];
  }

  /** Two spaces between words collapse to one. */
  lemma CleanTextCollapsesSpaces(a: string, b: string)
    requires IsToken(a) && IsToken(b) && Printable(a) && Printable(b)
    ensures CleanText(a + "  " + b) == a + " " + b
  {
    var s := a + "  " + b;
    assert s == a + [' '] + ([] + [' '] + b);
    TokensAroundSpace(a, ' ', [] + [' '] + b);
    TokensAroundSpace([], ' ', b);
    TokensOfToken(a);
    TokensOfToken(b);
    assert Tokens(s) == [a, b];
    assert NoControl(s) by {
      forall i | 0 <= i < |s| ensures s[i] as int >= 32 || IsSpace(s[i]) {
        if i < |a| { assert s[i] == a[i]; }
        else if i >= |a| + 2 { assert s[i] == b[i - |a| - 2]; }
      }
    }
    CleanTextOfNoControl(s);
    assert Join(" ", [a, b]) == a + " " + b;
  }

  /** `clean_text` is therefore not idempotent: for any two words `a` and
      `b`, `a + " \0 " + b` cleans to `a + "  " + b`, which cleans again to
      the different `a + " " + b` (`"a \0 b"` to `"a  b"` to `"a b"`). */
  lemma CleanTextNotIdempotent(a: string, b: string)
    requires IsToken(a) && IsToken(b) && Printable(a) && Printable(b)
    ensures CleanText(a + " \0 " + b) == a + "  " + b
    ensures CleanText(CleanText(a + " \0 " + b)) == a + " " + b
    ensures CleanText(CleanText(a + " \0 " + b)) != CleanText(a + " \0 " + b)
  {
    assert a + " \0 " + b == a + " " + ['\0'] + " " + b;
    CleanTextLeavesDoubleSpace(a, '\0', b);
    CleanTextCollapsesSpaces(a, b);
    assert |a + " " + b| != |a + "  " + b|;
  }

  // ---------------------------------------------------------------------
  // get_document_type

  const ExtensionTypes: map<string, DocumentType> := map[
    ".pdf" := PDF, ".docx" := DOCX, ".doc" := DOCX, ".txt" := TXT, ".text" := TXT,
    ".png" := IMAGE, ".jpg" := IMAGE, ".jpeg" := IMAGE, ".tiff" := IMAGE, ".tif" := IMAGE,
    ".bmp" := IMAGE, ".gif" := IMAGE]

  const MimeTypes: map<string, DocumentType> := map[
    "application/pdf" := PDF,
    "application/vnd.openxmlformats-officedocument.wordprocessingml.document" := DOCX,
    "application/msword" := DOCX,
    "text/plain" := TXT, "text/rtf" := TXT,
    "image/png" := IMAGE, "image/jpeg" := IMAGE, "image/tiff" := IMAGE,
    "image/bmp" := IMAGE, "image/gif" := IMAGE]

  /** `get_document_type` given the MIME guess for the path: the lowercased
      extension decides when it is in the table, the MIME table only when it
      is not, and otherwise the type is UNKNOWN. */
  function GetDocumentType(path: string, mime: Option<string>): (r: DocumentType)
    ensures Extension(Lower(path)) in ExtensionTypes ==> r == ExtensionTypes[Extension(Lower(path))]
    ensures Extension(Lower(path)) !in ExtensionTypes && Truthy(mime) && mime.value in MimeTypes
            ==> r == MimeTypes[mime.value]
    ensures r == UNKNOWN <==>
            Extension(Lower(path)) !in ExtensionTypes && !(Truthy(mime) && mime.value in MimeTypes)
  {
    var ext := Extension(Lower(path));
    assert UNKNOWN !in ExtensionTypes.Values;
    assert UNKNOWN !in MimeTypes.Values;
    if ext in ExtensionTypes then ExtensionTypes[ext]
    else if Truthy(mime) && mime.value in MimeTypes then MimeTypes[mime.value]
    else UNKNOWN
  }

  /** Upper and lower case in the path do not change the type. */
  lemma DocumentTypeIgnoresCase(path: string, mime: Option<string>)
    ensures GetDocumentType(Lower(path), mime) == GetDocumentType(path, mime)
  {
    LowerLower(path);
  }

  /** A known extension decides alone, whatever the MIME guess. */
  lemma ExtensionBeatsMime(path: string, m1: Option<string>, m2: Option<string>)
    requires Extension(Lower(path)) in ExtensionTypes
    ensures GetDocumentType(path, m1) == GetDocumentType(path, m2)
  {
  }

  // ---------------------------------------------------------------------
  // validate_file

  /** All the conditions `validate_file` checks, taken together. */
  predicate Acceptable(env: Env, path: string)
  {
    && path in env.files
    && env.files[path].isFile
    && env.files[path].readable
    && env.files[path].size <= MaxFileSizeBytes(env.settings)
  }

  function SizeMessage(size: nat, max: int): string
  {
    "File size (" + NatToString(size) + " bytes) exceeds maximum allowed size ("
    + IntToString(max) + " bytes)"
  }

  /** `validate_file`: existence, then regular file, then readability, then
      size, failing on the first condition violated. */
  function ValidateFile(env: Env, path: string): (r: Outcome<DocumentParserError>)
    ensures r.Pass? <==> Acceptable(env, path)
    ensures path !in env.files ==> r == Fail(DocumentParserError("File does not exist: " + path))
    ensures path in env.files && !env.files[path].isFile
            ==> r == Fail(DocumentParserError("Path is not a file: " + path))
    ensures path in env.files && env.files[path].isFile && !env.files[path].readable
            ==> r == Fail(DocumentParserError("File is not readable: " + path))
    ensures path in env.files && env.files[path].isFile && env.files[path].readable
            && env.files[path].size > MaxFileSizeBytes(env.settings)
            ==> r == Fail(DocumentParserError(SizeMessage(env.files[path].size, MaxFileSizeBytes(env.settings))))
  {
    if path !in env.files then Fail(DocumentParserError("File does not exist: " + path))
    else
      var f := env.files[path];
      if !f.isFile then Fail(DocumentParserError("Path is not a file: " + path))
      else if !f.readable then Fail(DocumentParserError("File is not readable: " + path))
      else
        var max := MaxFileSizeBytes(env.settings);
        if f.size > max then Fail(DocumentParserError(SizeMessage(f.size, max)))
        else Pass
  }

  /** A file of exactly the maximum size is accepted; one byte more is not. */
  lemma SizeBoundary(env: Env, path: string)
    requires path in env.files && env.files[path].isFile && env.files[path].readable
    ensures env.files[path].size == MaxFileSizeBytes(env.settings) ==> ValidateFile(env, path).Pass?
    ensures env.files[path].size == MaxFileSizeBytes(env.settings) + 1 ==> ValidateFile(env, path).Fail?
  {
  }

  // ---------------------------------------------------------------------
  // create_document

  /** The metadata `create_document` hands to the document: an absent
      argument becomes empty metadata, and a missing `file_size` is filled in
      from `stat`, which may fail. */
  function FilledMetadata(env: Env, path: string, metadata: Option<DocumentMetadata>)
    : (r: Result<DocumentMetadata, string>)
    ensures var md := if metadata.Some? then metadata.value else EmptyMetadata;
      && (r.Failure? <==> md.fileSize.None? && path !in env.files)
      && (r.Success? ==> r.value.fileSize.Some?
                         && r.value == md.(fileSize := r.value.fileSize)
                         && (md.fileSize.Some? ==> r.value.fileSize == md.fileSize)
                         && (md.fileSize.None? ==> r.value.fileSize == Some(env.files[path].size as int)))
  {
    var md := if metadata.Some? then metadata.value else EmptyMetadata;
    if md.fileSize.Some? then Success(md)
    else
      match Stat(env, path)
      case Failure(e) => Failure(e)
      case Success(f) => Success(md.(fileSize := Some(f.size as int)))
  }

  /** `create_document`: a PENDING document named by the path's last
      component, typed by `get_document_type`, with default processing
      options and the filled-in metadata, whose `file_size` it repeats.
      `id` stands for the generated identifier and `clock` for the two
      clock reads of the document's field defaults. */
  method CreateDocument(env: Env, path: string, content: string, metadata: Option<DocumentMetadata>,
                        id: string, clock: Clock)
    returns (r: Result<Document, string>)
    ensures FilledMetadata(env, path, metadata).Failure? ==> r == Failure(FilledMetadata(env, path, metadata).error)
    ensures FilledMetadata(env, path, metadata).Success? ==> (
      var md := FilledMetadata(env, path, metadata).value;
      && (r.Failure? <==> ValidationFailures(Basename(path), md.fileSize.value) != [])
      && (r.Failure? ==> r.error == ValidationMessage(ValidationFailures(Basename(path), md.fileSize.value)))
      && (r.Success? ==>
            && fresh(r.value) && r.value.Valid()
            && r.value.Initial(id, Basename(path), path, GetDocumentType(path, GuessType(env, path)),
                               md.fileSize.value, content, md, DefaultOptions, clock)
            && r.value.metadata.fileSize == Some(r.value.fileSize)))
  {
    var filled := FilledMetadata(env, path, metadata);
    if filled.Failure? {
      return Failure(filled.error);
    }
    var md := filled.value;
    r := NewDocument(id, Basename(path), path, GetDocumentType(path, GuessType(env, path)),
                     md.fileSize.value, content, md, DefaultOptions, clock);
  }

  // ---------------------------------------------------------------------
  // ParserRegistry

  /** What probing a parser with `can_parse` gives: true, false, or an
      exception, which `get_parser` treats as false. */
  datatype Probe = Accepts | Declines | Raises(message: string)

  /** The first parser, in order, whose probe accepts. */
  function FirstAccepting<P(==)>(parsers: seq<P>, probe: P -> Probe): (r: Option<P>)
    ensures r.None? <==> forall i :: 0 <= i < |parsers| ==> !probe(parsers[i]).Accepts?
    ensures r.Some? ==> exists i :: 0 <= i < |parsers| && parsers[i] == r.value && probe(parsers[i]).Accepts?
                                  && forall j :: 0 <= j < i ==> !probe(parsers[j]).Accepts?
  {
    if parsers == [] then None
    else if probe(parsers[0]).Accepts? then
      Some(parsers[0])
    else
      var r := FirstAccepting(parsers[1..], probe);
      assert forall i :: 1 <= i < |parsers| ==> parsers[i] == parsers[1..][i - 1];
      if r.Some? then
        var k :| 0 <= k < |parsers[1..]| && parsers[1..][k] == r.value && probe(parsers[1..][k]).Accepts?
                 && forall j :: 0 <= j < k ==> !probe(parsers[1..][j]).Accepts?;
        assert parsers[k + 1] == r.value;
        assert forall j :: 0 <= j < k + 1 ==> !probe(parsers[j]).Accepts? by {
          forall j | 0 <= j < k + 1 ensures !probe(parsers[j]).Accepts? {
            if j > 0 { assert parsers[j] == parsers[1..][j - 1]; }
          }
        }
        r
      else r
  }

  /** `ParserRegistry`: the registered parsers, in registration order. */
  class ParserRegistry<P(==)> {
    var parsers: seq<P>

    constructor ()
      ensures parsers == []
    {
      parsers := [];
    }

    /** `register` appends at the end. */
    method Register(parser: P)
      modifies this
      ensures parsers == old(parsers) + [parser]
    {
      parsers := parsers + [parser];
    }

    /** `list_parsers`: each registered parser's class name, in order. */
    function ListParsers(className: P -> string): (names: seq<string>)
      reads this
      ensures |names| == |parsers|
      ensures forall i :: 0 <= i < |parsers| ==> names[i] == className(parsers[i])
    {
      seq(|parsers|, i requires 0 <= i < |parsers| reads this => className(parsers[i]))
    }

    /** `get_parser`: probes in registration order and returns the first
        parser that accepts; one that declines or raises is passed over. */
    method GetParser(probe: P -> Probe) returns (r: Option<P>)
      ensures r == FirstAccepting(parsers, probe)
    {
      var i := 0;
      while i < |parsers|
        invariant 0 <= i <= |parsers|
        invariant FirstAccepting(parsers[i..], probe) == FirstAccepting(parsers, probe)
      {
        if probe(parsers[i]).Accepts? {
          return Some(parsers[i]);
        }
        assert parsers[i..][1..] == parsers[i + 1..];
        i := i + 1;
      }
      return None;
    }

    /** `clear` empties the registry. */
    method Clear()
      modifies this
      ensures parsers == []
    {
      parsers := [];
    }
  }
}
