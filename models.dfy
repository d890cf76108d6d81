/** The data model of `models.py`: the document type and status
    enumerations, the metadata and processing-option records with their
    defaults, the two field validators of `Document`, and the `Document`
    object whose status and log `update_status` and `add_processing_log`
    change in place. */
module Models {
  import opened Outcomes
  import opened Text
  import opened Dates

  datatype DocumentType = PDF | DOCX | TXT | IMAGE | UNKNOWN
  datatype ProcessingStatus = PENDING | PROCESSING | COMPLETED | FAILED | CANCELLED

  datatype DocumentMetadata = DocumentMetadata(
    title: Option<string>,
    author: Option<string>,
    subject: Option<string>,
    creator: Option<string>,
    producer: Option<string>,
    creationDate: Option<DateTime>,
    modificationDate: Option<DateTime>,
    pageCount: Option<int>,
    wordCount: Option<int>,
    language: Option<string>,
    keywords: seq<string>,
    fileSize: Option<int>)

  /** `DocumentMetadata()`: every field absent, no keywords. */
  const EmptyMetadata := DocumentMetadata(None, None, None, None, None, None, None, None, None, None, [], None)

  datatype ProcessingOptions = ProcessingOptions(
    enableOcr: bool,
    enableSummarization: bool,
    enableClassification: bool,
    enableEntityExtraction: bool,
    enableSentimentAnalysis: bool,
    chunkSize: int,
    chunkOverlap: int,
    maxSummaryLength: int,
    extractImages: bool,
    preserveLayout: bool)

  /** `ProcessingOptions()` */
  const DefaultOptions := ProcessingOptions(true, true, true, true, true, 1000, 200, 500, false, true)

  datatype DocumentChunk = DocumentChunk(
    id: string,
    documentId: string,
    chunkIndex: int,
    content: string,
    pageNumber: Option<int>,
    startChar: Option<int>,
    endChar: Option<int>,
    embedding: Option<seq<real>>,
    metadata: map<string, string>)

  datatype ExtractedEntity = ExtractedEntity(
    text: string, entityLabel: string, confidence: real, startPos: int, endPos: int, context: string)

  /** The two `datetime.utcnow` reads a new document's field defaults
      make: one for `created_at`, then one for `updated_at`. */
  datatype Clock = Clock(created: DateTime, updated: DateTime)

  const FilenameError := "Filename cannot be empty"
  const FileSizeError := "File size cannot be negative"

  /** The `filename` validator: an empty or all-whitespace name is refused,
      any other is stored trimmed. */
  function ValidateFilename(v: string): (r: Result<string, string>)
    ensures r.Success? <==> !IsBlank(v)
    ensures r.Success? ==> r.value != [] && !IsSpace(r.value[0]) && !IsSpace(r.value[|r.value| - 1])
    ensures r.Success? ==> r.value == Strip(v)
    ensures r.Failure? ==> r.error == FilenameError
  {
    StripEmpty(v);
    if v == [] || Strip(v) == [] then Failure(FilenameError)
    else Success(Strip(v))
  }

  /** The `file_size` validator: negative sizes are refused, zero is allowed. */
  function ValidateFileSize(v: int): (r: Result<int, string>)
    ensures r.Success? <==> v >= 0
    ensures r.Success? ==> r.value == v
    ensures r.Failure? ==> r.error == FileSizeError
  {
    if v < 0 then Failure(FileSizeError) else Success(v)
  }

  /** The text of the validation error a `Document(...)` call raises, in the
      layout of pydantic 1: a count line, then each failing field with its
      message. */
  function ValidationMessage(failures: seq<(string, string)>): string
  {
    var n := |failures|;
    NatToString(n) + " validation error" + (if n == 1 then "" else "s") + " for Document"
    + ValidationLines(failures)
  }

  function ValidationLines(failures: seq<(string, string)>): string
  {
    if failures == [] then []
    else "\n" + failures[0].0 + "\n  " + failures[0].1 + " (type=value_error)" + ValidationLines(failures[1..])
  }

  /** The fields of a `Document(...)` call that its validators refuse, in
      declaration order. */
  function ValidationFailures(filename: string, fileSize: int): (f: seq<(string, string)>)
    ensures f == [] <==> ValidateFilename(filename).Success? && ValidateFileSize(fileSize).Success?
  {
    (if ValidateFilename(filename).Failure? then [("filename", FilenameError)] else [])
    + (if ValidateFileSize(fileSize).Failure? then [("file_size", FileSizeError)] else [])
  }

  /** A name the validator accepts is stored as its trimmed form, which the
      validator accepts unchanged: validating twice is validating once. */
  lemma TrimmedNameValid(filename: string)
    requires !IsBlank(filename)
    ensures ValidateFilename(Strip(filename)) == Success(Strip(filename))
  {
    var t := Strip(filename);
    StripEmpty(t);
  }

  /** The entry `add_processing_log` appends for a message logged at the
      ISO-format time `stamp`. */
  function LogEntry(stamp: string, message: string): string
  {
    "[" + stamp + "] " + message
  }

  class Document {
    var id: string
    var filename: string
    var filePath: string
    var fileType: DocumentType
    var fileSize: int
    var content: string
    var metadata: DocumentMetadata
    var processingStatus: ProcessingStatus
    var processingOptions: ProcessingOptions
    var createdAt: DateTime
    var updatedAt: DateTime
    var processedAt: Option<DateTime>
    var entities: seq<ExtractedEntity>
    var chunks: seq<DocumentChunk>
    var errorMessage: Option<string>
    var processingLog: seq<string>

    /** What the validators guarantee of every constructed document: a
        filename that is non-empty and trimmed, and a non-negative size. */
    ghost predicate Valid()
      reads this
    {
      filename != [] && !IsSpace(filename[0]) && !IsSpace(filename[|filename| - 1]) && fileSize >= 0
    }

    /** The state of a document just built from these arguments, the
        filename as the validator stored it. */
    ghost predicate Initial(id: string, filename: string, filePath: string, fileType: DocumentType,
                            fileSize: int, content: string, metadata: DocumentMetadata,
                            options: ProcessingOptions, clock: Clock)
      reads this
    {
      Stored(id, Strip(filename), filePath, fileType, fileSize, content, metadata, options, clock)
    }

    /** Every field as given, with a fresh status, log and result lists. */
    ghost predicate Stored(id: string, name: string, filePath: string, fileType: DocumentType,
                           fileSize: int, content: string, metadata: DocumentMetadata,
                           options: ProcessingOptions, clock: Clock)
      reads this
    {
      && this.id == id && this.filename == name && this.filePath == filePath
      && this.fileType == fileType && this.fileSize == fileSize && this.content == content
      && this.metadata == metadata && this.processingOptions == options
      && processingStatus == PENDING && createdAt == clock.created && updatedAt == clock.updated
      && processedAt == None && errorMessage == None
      && processingLog == [] && entities == [] && chunks == []
    }

    /** `Document(...)` once its validators have accepted the arguments, with
        `name` the filename as the validator returned it (non-empty and
        trimmed); `id` stands for the generated identifier and `clock` for
        the two clock reads of the field defaults. */
    constructor (id: string, name: string, filePath: string, fileType: DocumentType,
                 fileSize: int, content: string, metadata: DocumentMetadata,
                 options: ProcessingOptions, clock: Clock)
      requires name != [] && !IsSpace(name[0]) && !IsSpace(name[|name| - 1]) && fileSize >= 0
      ensures Stored(id, name, filePath, fileType, fileSize, content, metadata, options, clock)
      ensures Valid()
    {
      this.id := id;
      this.filename := name;
      this.filePath := filePath;
      this.fileType := fileType;
      this.fileSize := fileSize;
      this.content := content;
      this.metadata := metadata;
      this.processingStatus := PENDING;
      this.processingOptions := options;
      this.createdAt := clock.created;
      this.updatedAt := clock.updated;
      this.processedAt := None;
      this.entities := [];
      this.chunks := [];
      this.errorMessage := None;
      this.processingLog := [];
    }

    /** `add_processing_log`: one timestamped entry at the end of the log. */
    method AddProcessingLog(message: string, stamp: string)
      modifies this`processingLog
      ensures processingLog == old(processingLog) + [LogEntry(stamp, message)]
    {
      processingLog := processingLog + [LogEntry(stamp, message)];
    }

    /** `update_status`: any status may follow any other. `processed_at` is
        set only on completion and otherwise kept; a non-empty error message
        is recorded and logged; nothing else changes. The clock is read
        separately for `updated_at` (`now`), for `processed_at`
        (`completedAt`) and for the log entry (`stamp`). */
    method UpdateStatus(status: ProcessingStatus, errorMessage: Option<string>, now: DateTime,
                        completedAt: DateTime, stamp: string)
      modifies this
      ensures processingStatus == status && updatedAt == now
      ensures processedAt == if status == COMPLETED then Some(completedAt) else old(processedAt)
      ensures this.errorMessage == if Truthy(errorMessage) then errorMessage else old(this.errorMessage)
      ensures processingLog == old(processingLog)
                               + if Truthy(errorMessage) then [LogEntry(stamp, "ERROR: " + errorMessage.value)] else []
      ensures id == old(id) && filename == old(filename) && filePath == old(filePath)
      ensures fileType == old(fileType) && fileSize == old(fileSize) && content == old(content)
      ensures metadata == old(metadata) && processingOptions == old(processingOptions)
      ensures createdAt == old(createdAt) && entities == old(entities) && chunks == old(chunks)
      ensures old(Valid()) ==> Valid()
    {
      processingStatus := status;
      updatedAt := now;
      if status == COMPLETED {
        processedAt := Some(completedAt);
      }
      if Truthy(errorMessage) {
        this.errorMessage := errorMessage;
        AddProcessingLog("ERROR: " + errorMessage.value, stamp);
      }
    }
  }

  /** `Document(...)` with its validators: the new document, or the
      validation error listing every refused field. */
  method NewDocument(id: string, filename: string, filePath: string, fileType: DocumentType,
                     fileSize: int, content: string, metadata: DocumentMetadata,
                     options: ProcessingOptions, clock: Clock)
    returns (r: Result<Document, string>)
    ensures r.Failure? <==> ValidationFailures(filename, fileSize) != []
    ensures r.Failure? ==> r.error == ValidationMessage(ValidationFailures(filename, fileSize))
    ensures r.Success? ==> fresh(r.value) && r.value.Valid()
    ensures r.Success? ==> r.value.Initial(id, filename, filePath, fileType, fileSize, content, metadata, options, clock)
  {
    var failures := ValidationFailures(filename, fileSize);
    if failures != [] {
      return Failure(ValidationMessage(failures));
    }
    var name := ValidateFilename(filename).value;
    var d := new Document(id, name, filePath, fileType, fileSize, content, metadata, options, clock);
    return Success(d);
  }

  /** Validation accepts exactly the non-blank names and the non-negative
      sizes, and a zero-byte file is accepted. */
  lemma ValidationAccepts(filename: string, fileSize: int)
    ensures ValidationFailures(filename, fileSize) == [] <==> !IsBlank(filename) && fileSize >= 0
    ensures ValidationFailures("   ", 0) == [("filename", FilenameError)]
    ensures ValidationFailures("report.pdf", -1) == [("file_size", FileSizeError)]
  {
    assert IsBlank("   ");
    assert !IsSpace("report.pdf"[0]);
  }

  /** A completed document moved back to PROCESSING keeps its completion
      time: `processed_at` is set on completion but never cleared, so a
      document can carry a `processed_at` while not COMPLETED. */
  method ReopenKeepsProcessedAt(d: Document, t1: DateTime, done: DateTime, t2: DateTime, t3: DateTime, stamp: string)
    modifies d
    ensures d.processingStatus == PROCESSING && d.processedAt == Some(done) && d.updatedAt == t2
  {
    d.UpdateStatus(COMPLETED, None, t1, done, stamp);
    d.UpdateStatus(PROCESSING, None, t2, t3, stamp);
  }

  /** The declared defaults of the two records: metadata with every field
      absent and no keywords; options with every analysis enabled, chunks of
      1000 characters overlapping by 200, summaries of at most 500, no image
      extraction and the layout preserved. */
  lemma Defaults()
    ensures var m := EmptyMetadata;
      && m.title.None? && m.author.None? && m.subject.None? && m.creator.None? && m.producer.None?
      && m.creationDate.None? && m.modificationDate.None? && m.pageCount.None? && m.wordCount.None?
      && m.language.None? && m.keywords == [] && m.fileSize.None?
    ensures var o := DefaultOptions;
      && o.enableOcr && o.enableSummarization && o.enableClassification
      && o.enableEntityExtraction && o.enableSentimentAnalysis
      && o.chunkSize == 1000 && o.chunkOverlap == 200 && o.maxSummaryLength == 500
      && !o.extractImages && o.preserveLayout
  {
  }
}
