/** `TxtParser`: plain text files. Reading the file and the clock are
    inputs (`Environment`), so every step but `parse` is a function. */
module TxtParser {
  import opened Outcomes
  import opened Text
  import opened Dates
  import opened Config
  import opened Models
  import opened Environment
  import opened Base

  const ClassName := "TxtParser"

  /** The formats the parser declares. */
  const SupportedTypes := [TXT]

  /** `can_parse`: a lowercased `.txt` extension and a file `validate_file`
      accepts; a validation failure makes it false instead of raising. */
  function CanParse(env: Env, path: string): (r: bool)
    ensures r <==> Extension(Lower(path)) == ".txt" && Acceptable(env, path)
  {
    if Extension(Lower(path)) != ".txt" then false
    else ValidateFile(env, path).Pass?
  }

  /** Every path the parser accepts is classified as one of its declared
      formats. */
  lemma AcceptedTypeSupported(env: Env, path: string)
    requires CanParse(env, path)
    ensures GetDocumentType(path, GuessType(env, path)) in SupportedTypes
  {
    assert ".txt" in ExtensionTypes;
  }

  /** A `.text` file is classified as TXT, yet the TXT parser declines it. */
  lemma TextExtensionDeclined(env: Env, path: string, mime: Option<string>)
    requires Extension(Lower(path)) == ".text"
    ensures GetDocumentType(path, mime) == TXT
    ensures !CanParse(env, path)
  {
    assert ".text" in ExtensionTypes;
  }

  // ---------------------------------------------------------------------
  // extract_text

  function TextError(message: string): DocumentParserError
  {
    DocumentParserError("Failed to extract text from TXT: " + message)
  }

  /** `extract_text`: the file read with the requested encoding and passed
      through `clean_text`; any failure to open or decode is reported under
      the TXT text-extraction prefix. */
  function ExtractText(env: Env, path: string, opts: ParseOptions): (r: Result<string, DocumentParserError>)
    ensures r.Success? <==> ReadText(env, path, opts.encoding).Success?
    ensures r.Failure? ==> r.error == TextError(ReadText(env, path, opts.encoding).error)
    ensures r.Success? ==> Printable(r.value) && (r.value == [] || (!IsSpace(r.value[0]) && !IsSpace(r.value[|r.value| - 1])))
  {
    match ReadText(env, path, opts.encoding)
    case Failure(e) => Failure(TextError(e))
    case Success(text) => Success(CleanText(text))
  }

  /** Without an encoding option the file is decoded as UTF-8, and a file
      free of non-whitespace control characters yields its words joined by
      single spaces. */
  lemma ExtractTextWords(env: Env, path: string)
    requires ReadText(env, path, "utf-8").Success?
    requires NoControl(ReadText(env, path, "utf-8").value)
    ensures ExtractText(env, path, DefaultParseOptions) == Success(Join(" ", Tokens(ReadText(env, path, "utf-8").value)))
  {
    CleanTextOfNoControl(ReadText(env, path, "utf-8").value);
  }

  // ---------------------------------------------------------------------
  // extract_metadata

  function MetadataError(message: string): DocumentParserError
  {
    DocumentParserError("Failed to extract TXT metadata: " + message)
  }

  /** `extract_metadata`: a fresh empty record given the size and the two
      timestamps of `get_file_info`, which fails only when `stat` does. */
  function ExtractMetadata(env: Env, path: string): (r: Result<DocumentMetadata, DocumentParserError>)
    ensures r.Success? <==> path in env.files
    ensures r.Failure? ==> r.error == MetadataError(NoSuchFile(path))
    ensures r.Success? ==> && r.value.fileSize == Some(env.files[path].size as int)
                           && r.value.creationDate == Some(env.files[path].created)
                           && r.value.modificationDate == Some(env.files[path].modified)
  {
    match Stat(env, path)
    case Failure(e) => Failure(MetadataError(e))
    case Success(f) =>
      Success(EmptyMetadata.(fileSize := Some(f.size as int), creationDate := Some(f.created),
                             modificationDate := Some(f.modified)))
  }

  /** Nothing else is filled in: no title, author, page count or keywords. */
  lemma MetadataOnlyFileFields(env: Env, path: string)
    requires ExtractMetadata(env, path).Success?
    ensures var md := ExtractMetadata(env, path).value;
      && md.title.None? && md.author.None? && md.subject.None? && md.creator.None?
      && md.producer.None? && md.pageCount.None? && md.wordCount.None? && md.language.None?
      && md.keywords == []
      && md == EmptyMetadata.(fileSize := md.fileSize, creationDate := md.creationDate,
                              modificationDate := md.modificationDate)
  {
  }

  /** `parse` does not apply the size ceiling: a readable file over it,
      which `can_parse` declines, still has its metadata and text extracted. */
  lemma OversizedStillExtracts(env: Env, path: string, opts: ParseOptions)
    requires ReadText(env, path, opts.encoding).Success?
    requires env.files[path].size > MaxFileSizeBytes(env.settings)
    ensures !CanParse(env, path)
    ensures ExtractMetadata(env, path).Success? && ExtractText(env, path, opts).Success?
  {
  }

  // ---------------------------------------------------------------------
  // parse

  function ParseError(path: string, message: string): DocumentParserError
  {
    DocumentParserError("Failed to parse TXT " + path + ": " + message)
  }

  /** `parse`: metadata first, then the text, then `create_document`; any
      failure is reported under the path and no document is returned. The
      document holds the extracted text and the size `stat` gave. */
  method Parse(env: Env, path: string, opts: ParseOptions, id: string, clock: Clock)
    returns (r: Result<Document, DocumentParserError>)
    ensures ExtractMetadata(env, path).Failure? ==>
              r == Failure(ParseError(path, ExtractMetadata(env, path).error.message))
    ensures ExtractMetadata(env, path).Success? && ExtractText(env, path, opts).Failure? ==>
              r == Failure(ParseError(path, ExtractText(env, path, opts).error.message))
    ensures ExtractMetadata(env, path).Success? && ExtractText(env, path, opts).Success? ==>
              Built(env, path, ExtractMetadata(env, path).value, ExtractText(env, path, opts).value, id, clock, r)
  {
    var metadata := ExtractMetadata(env, path);
    if metadata.Failure? {
      return Failure(ParseError(path, metadata.error.message));
    }
    var content := ExtractText(env, path, opts);
    if content.Failure? {
      return Failure(ParseError(path, content.error.message));
    }
    r := Build(env, path, metadata.value, content.value, id, clock);
  }

  /** The outcome of `create_document` on the extracted metadata `md` and
      text `content`: a validation failure reported under the path, or a
      fresh PENDING document holding exactly that text, metadata and size. */
  ghost predicate Built(env: Env, path: string, md: DocumentMetadata, content: string,
                        id: string, clock: Clock, r: Result<Document, DocumentParserError>)
    requires md.fileSize.Some?
    reads if r.Success? then {r.value} else {}
  {
    var failures := ValidationFailures(Basename(path), md.fileSize.value);
    && (r.Failure? <==> failures != [])
    && (r.Failure? ==> r.error == ParseError(path, ValidationMessage(failures)))
    && (r.Success? ==>
          && r.value.Valid()
          && r.value.Initial(id, Basename(path), path, GetDocumentType(path, GuessType(env, path)),
                             md.fileSize.value, content, md, DefaultOptions, clock)
          && r.value.metadata.fileSize == Some(r.value.fileSize))
  }

  /** The `create_document` step of `parse`. */
  method Build(env: Env, path: string, md: DocumentMetadata, content: string, id: string, clock: Clock)
    returns (r: Result<Document, DocumentParserError>)
    requires md.fileSize.Some?
    ensures r.Success? ==> fresh(r.value)
    ensures Built(env, path, md, content, id, clock, r)
  {
    assert FilledMetadata(env, path, Some(md)) == Success(md);
    var created := CreateDocument(env, path, content, Some(md), id, clock);
    if created.Failure? {
      return Failure(ParseError(path, created.error));
    }
    return Success(created.value);
  }
}
