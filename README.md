# Document ingestion core of AI_document_processor, in Dafny

This project models the ingestion side of `AI_document_processor/src`:

- the text normaliser `clean_text`;
- the extension/MIME classifier `get_document_type`;
- the validation guard `validate_file`;
- `create_document`;
- the ordered parser registry, and the [PDF, TXT] instance the package registers at import time;
- the PDF parser, with its date decoder, page-marker text assembly, metadata mapping, image filter and file naming, scanned-document rule and `parse`;
- the TXT parser;
- the `Document` model with its validators and status/log updates;
- the settings validators, list properties, defaults and `validate_setup`.

The world the parsers see is an input value (`Environment.Env`):

- the file system, as a map from path to a record: regular file or not, readable or not, size, the two timestamps, the decoded text per encoding, and what PyMuPDF opens;
- the MIME guesses;
- the writable directories;
- the settings.

A PyMuPDF document is its `is_pdf` and `needs_pass` flags, the passwords that authenticate, its metadata dictionary (absent where PyMuPDF withholds it), and its pages. An environment is well formed (`Environment.WellFormed`) when every document that needs a password has its dictionary withheld, as PyMuPDF does before authentication. `extract_images` and `is_scanned_pdf` open the file without a password, so in `PdfParser.ExtractedImages` and `PdfParser.ScannedOutcome` a document that needs a password and has pages is taken to raise on the first page load: no images, and not scanned. Each page is its text, its block texts, and each image's pixmap outcome (channels, alpha, PNG bytes or an error).

Raised exceptions become `Failure` values carrying the message text. Every parser error is the single `DocumentParserError`; the kinds of error differ only in that text.

Files, one module each:

- `outcomes.dfy`: Option and Result.
- `text.dfy`: Python string semantics: whitespace, `split`, `strip`, `join`, `lower`, `splitext`, `basename`, `int`, `str`.
- `dates.dfy`: the `datetime` constructor.
- `config.dfy`: the settings.
- `models.dfy`: the data model.
- `environment.dfy`: the world.
- `base.dfy`: the base parser and the registry.
- `pdf_parser.dfy`, `txt_parser.dfy`: the two parsers.
- `parsers.dfy`: the registered instance.

Imperative code is modelled imperatively:

- `Document` and `ParserRegistry` are classes whose methods update their fields.
- The loops of `extract_text`, `extract_images`, `is_scanned_pdf` and `get_parser` are methods with loop invariants. Each is proved equal to a specification function, and the properties are proved about that function.
- The `parse` methods state the document they build.

## Where the code departs from its description

The model follows the code in each of these cases:

- **`clean_text` is not idempotent.** A non-whitespace control character between spaces survives `split()` as a word, and the filter then leaves two spaces behind (`Base.CleanTextNotIdempotent`). It is idempotent on text without such characters (`Base.CleanTextIdempotent`).
- **`clean_text` flattens the text.** Newlines and tabs are gone after `split()`, so the page markers of the PDF text end up on one line with single spaces (`PdfParser.PdfTextFlattened`).
- **`update_status` does not keep the documented invariants.**
  - It allows any status to follow any other.
  - It never clears `processed_at`, so a document reopened after completion keeps it (`Models.ReopenKeepsProcessedAt`).
  - It logs only error messages, not every status change.
- **`parse` does not apply the size ceiling.** Only `can_parse` calls `validate_file`, so `parse` extracts from an oversized file that `can_parse` declines (`TxtParser.OversizedStillExtracts`).
- **A password-protected PDF never parses.** `extract_metadata` opens the file without the password. PyMuPDF then gives no metadata dictionary, and the first `.get` raises before `extract_text` sees the password (`PdfParser.LockedNeverParses`, `PdfParser.ParseLocked`).
- **`.text` files get no parser.** `get_document_type` maps `.text` to TXT, but the TXT parser accepts only `.txt` (`TxtParser.TextExtensionDeclined`).
- **Some supported extensions get no parser.** The settings list `.docx` and the image types as supported, but no parser accepts them (`Parsers.OtherExtensionsUnparsed`).

## Model

| member | source | states |
|---|---|---|
| Base.CleanText | AI_document_processor/src/parsers/base.py:244-253 | empty input gives ""; the result has no character below code 32 (newline and tab included) and no whitespace at either end |
| Base.CleanTextOfNoControl | AI_document_processor/src/parsers/base.py:248-253 | without non-whitespace control characters the result is the whitespace-separated words joined by single spaces |
| Base.CleanTextIdempotent | AI_document_processor/src/parsers/base.py:248-253 | on such text a second application changes nothing |
| Base.CleanTextLeavesDoubleSpace | AI_document_processor/src/parsers/base.py:248-251 | `a + " " + c + " " + b` with a non-whitespace control character c cleans to `a + "  " + b` |
| Base.CleanTextNotIdempotent | AI_document_processor/src/parsers/base.py:248-253 | `a \0 b` cleans to `a  b`, which cleans again to the different `a b` |
| Base.CleanTextSettles | AI_document_processor/src/parsers/base.py:248-253 | a third application never changes the text |
| Base.GetDocumentType | AI_document_processor/src/parsers/base.py:89-142 | the lowercased extension's table entry decides; the MIME table only when the extension is unmapped and a guess exists; UNKNOWN exactly when neither applies |
| Base.DocumentTypeIgnoresCase | AI_document_processor/src/parsers/base.py:101 | upper and lower case in the path give the same type |
| Base.ExtensionBeatsMime | AI_document_processor/src/parsers/base.py:135-140 | a mapped extension decides whatever the MIME guess |
| Base.ValidateFile | AI_document_processor/src/parsers/base.py:144-174 | passes exactly when the file exists, is regular, is readable and is within the ceiling; otherwise fails with the message of the first violated check, in that order |
| Base.SizeBoundary | AI_document_processor/src/parsers/base.py:165-171 | a size equal to the ceiling is accepted and one byte more is refused |
| Base.FilledMetadata | AI_document_processor/src/parsers/base.py:214-220 | absent metadata becomes the empty record; a missing file size is taken from stat, which fails only for a missing file; every other field is kept |
| Base.CreateDocument | AI_document_processor/src/parsers/base.py:198-232 | a stat failure or the validation error is returned; otherwise a fresh PENDING document named by the basename, typed by `get_document_type`, sized by the metadata's file size, holding the content, the filled metadata and default options |
| Base.FirstAccepting | AI_document_processor/src/parsers/base.py:295-304 | None exactly when no probe accepts; otherwise the parser at the first accepting position, with every earlier probe declining or raising |
| Base.ParserRegistry.constructor | AI_document_processor/src/parsers/base.py:270-272 | the registry starts empty |
| Base.ParserRegistry.Register | AI_document_processor/src/parsers/base.py:275-282 | appends the parser at the end |
| Base.ParserRegistry.ListParsers | AI_document_processor/src/parsers/base.py:306-313 | one class name per parser, in registration order |
| Base.ParserRegistry.GetParser | AI_document_processor/src/parsers/base.py:285-304 | the loop returns the first accepting parser in order, a raising probe counting as a refusal, and None when none accepts |
| Base.ParserRegistry.Clear | AI_document_processor/src/parsers/base.py:315-317 | the registry is empty afterwards |
| PdfParser.CanParse | AI_document_processor/src/parsers/pdf_parser.py:49-66 | true exactly for a lowercased `.pdf` extension, a file validation accepts and a container PyMuPDF opens and reports as PDF; every failure gives false |
| PdfParser.AcceptedTypeSupported | AI_document_processor/src/parsers/pdf_parser.py:36 | every path the parser accepts is typed PDF, the one format in its `supported_types` |
| PdfParser.ParsePdfDate | AI_document_processor/src/parsers/pdf_parser.py:326-344 | any date produced is a valid calendar date and time; every other case gives None rather than raising |
| PdfParser.PdfDateFull | AI_document_processor/src/parsers/pdf_parser.py:331-340 | fourteen digits after the optional prefix give year, month, day, hour, minute and second from the fixed positions |
| PdfParser.PdfDateDayOnly | AI_document_processor/src/parsers/pdf_parser.py:336-340 | eight digits alone give midnight of that day |
| PdfParser.PdfDateNoDefaultForPresentHour | AI_document_processor/src/parsers/pdf_parser.py:336 | an hour field that is present but unreadable gives None, not 0 |
| PdfParser.PdfDateNeedsDigits | AI_document_processor/src/parsers/pdf_parser.py:331 | a year with no digit gives None |
| PdfParser.PdfDatePrefixOptional | AI_document_processor/src/parsers/pdf_parser.py:328-329 | `D:` before the digits does not change the result |
| PdfParser.PdfDateIgnoresTail | AI_document_processor/src/parsers/pdf_parser.py:331-338 | text after the fourteenth character (the time zone) is ignored |
| PdfParser.PdfDateExample | AI_document_processor/src/parsers/pdf_parser.py:326-340 | `D:20230615143022` is 15 June 2023 14:30:22 |
| PdfParser.NonBlank | AI_document_processor/src/parsers/pdf_parser.py:154 | every kept block is a non-blank block text, and every non-blank block text is kept |
| PdfParser.NonBlankAppend | AI_document_processor/src/parsers/pdf_parser.py:154 | filtering a concatenation concatenates the filtered parts, so block order and repeats are kept |
| PdfParser.NonBlankOne | AI_document_processor/src/parsers/pdf_parser.py:154 | a single block is kept exactly when its text is not blank |
| PdfParser.PageTexts | AI_document_processor/src/parsers/pdf_parser.py:145-154 | one text per page, layout or block mode as requested |
| PdfParser.MarkedPagesNumbering | AI_document_processor/src/parsers/pdf_parser.py:156-157 | every non-blank page i contributes `--- Page i+1 ---` with its text, and every part comes from such a page |
| PdfParser.MarkPages | AI_document_processor/src/parsers/pdf_parser.py:145-157 | the page loop collects the marked parts of the non-blank pages in order |
| PdfParser.ExtractText | AI_document_processor/src/parsers/pdf_parser.py:128-165 | open failure, missing password, rejected password, or the cleaned join of the marked pages, in that order |
| PdfParser.PasswordChecks | AI_document_processor/src/parsers/pdf_parser.py:136-142 | a locked document without a password fails with the password-required message, with a wrong one with the invalid-password message, and succeeds only with one that authenticates |
| PdfParser.FlattenedPages | AI_document_processor/src/parsers/pdf_parser.py:156-160 | the joined parts contain no control characters and split into each non-blank page's marker words followed by its words |
| PdfParser.PdfTextFlattened | AI_document_processor/src/parsers/pdf_parser.py:156-160 | the extracted text is those words joined by single spaces, with markers flattened into the text |
| PdfParser.PdfTextExample | AI_document_processor/src/parsers/pdf_parser.py:145-160 | pages `a`, blank, `b` give `--- Page 1 --- a --- Page 3 --- b` |
| PdfParser.DateEntry | AI_document_processor/src/parsers/pdf_parser.py:195-208 | a date is kept only for a present, non-empty entry that decodes, and is valid |
| PdfParser.ExtractMetadata | AI_document_processor/src/parsers/pdf_parser.py:180-227 | succeeds exactly when the file opens and its dictionary is available; the open error or the withheld-dictionary error is reported under the metadata prefix; the page count is the number of pages and the file size the stat size |
| PdfParser.MetadataEntries | AI_document_processor/src/parsers/pdf_parser.py:188-216 | text fields are copied as given; dates decode only from truthy entries; keywords are the comma-separated pieces of the entry in order, each trimmed (one per comma plus one, none containing a comma), and none for an absent or empty entry |
| PdfParser.KeywordPieces | AI_document_processor/src/parsers/pdf_parser.py:212-214 | a truthy keywords entry gives entry i = the i-th comma piece trimmed, one per comma plus one, each comma-free and trimmed; otherwise no keywords |
| PdfParser.LockedNeverParses | AI_document_processor/src/parsers/pdf_parser.py:180-188 | in a well-formed environment, metadata extraction of a document that needs a password fails with the `NoneType` error |
| PdfParser.ParseLocked | AI_document_processor/src/parsers/pdf_parser.py:85-92 | `parse` of a document that needs a password fails with that metadata error, whatever password the options carry |
| PdfParser.PageImagesOf | AI_document_processor/src/parsers/pdf_parser.py:250-274 | the inner loop succeeds exactly when no image of the page fails, and then gives the page's kept images |
| PdfParser.ExtractImages | AI_document_processor/src/parsers/pdf_parser.py:242-280 | the nested loops give every kept image in page order, or nothing on any failure |
| PdfParser.ImageNaming | AI_document_processor/src/parsers/pdf_parser.py:256-269 | with an output directory the entries are exactly the paths `page_p_img_k.png` of the images with fewer than four colour channels, with 1-based p and k |
| PdfParser.ImagePathsPresent | AI_document_processor/src/parsers/pdf_parser.py:256-269 | every kept, encodable image has its `page_p_img_k.png` path among the entries |
| PdfParser.ImagePathsOnly | AI_document_processor/src/parsers/pdf_parser.py:256-269 | every entry is the path of some kept, encodable image |
| PdfParser.ImageGapExample | AI_document_processor/src/parsers/pdf_parser.py:250-269 | grey, CMYK, RGB on page 1 give images 1 and 3: skipped images keep their number |
| PdfParser.ImageNameExample | AI_document_processor/src/parsers/pdf_parser.py:262-264 | the third image of the first page is `page_1_img_3.png` |
| PdfParser.ImageCountIgnoresDirectory | AI_document_processor/src/parsers/pdf_parser.py:259-272 | how many images are collected, before any write failure, does not depend on the output directory |
| PdfParser.IsScannedPdf | AI_document_processor/src/parsers/pdf_parser.py:291-314 | the answer is the division-free rule on the stripped page lengths, and false when the file cannot be opened or read |
| PdfParser.SumStripped | AI_document_processor/src/parsers/pdf_parser.py:293-299 | the loop total is the summed stripped length of every page's text |
| PdfParser.AverageBelowThreshold | AI_document_processor/src/parsers/pdf_parser.py:301-305 | the real-number average test is below 50 exactly when there are no pages or the total is under 50 per page |
| PdfParser.AverageRule | AI_document_processor/src/parsers/pdf_parser.py:302-305 | `total / pages < 50` exactly when `total < 50 * pages` |
| PdfParser.ScannedThreshold | AI_document_processor/src/parsers/pdf_parser.py:302-305 | one page with 49 stripped characters is scanned and one with 50 is not |
| PdfParser.ScannedEmpty | AI_document_processor/src/parsers/pdf_parser.py:302 | a document without pages counts as scanned |
| PdfParser.Parse | AI_document_processor/src/parsers/pdf_parser.py:85-110 | metadata before text; each failure is reported as `Failed to parse PDF <path>: ...` with no document; otherwise the document described for Assemble |
| PdfParser.Assemble | AI_document_processor/src/parsers/pdf_parser.py:94-105 | a validation failure wrapped under the path, or a fresh valid PENDING document whose metadata gained exactly one `image_count_N` keyword when images were requested and none otherwise |
| PdfParser.AddImageCount | AI_document_processor/src/parsers/pdf_parser.py:98-101 | appending the image count changes only the keywords of the document |
| TxtParser.CanParse | AI_document_processor/src/parsers/txt_parser.py:26-48 | true exactly for a lowercased `.txt` extension and a file validation accepts; a validation failure gives false |
| TxtParser.AcceptedTypeSupported | AI_document_processor/src/parsers/txt_parser.py:23 | every path the parser accepts is typed TXT, the one format in its `supported_types` |
| TxtParser.TextExtensionDeclined | AI_document_processor/src/parsers/txt_parser.py:38-40 | a `.text` file is typed TXT but declined |
| TxtParser.ExtractText | AI_document_processor/src/parsers/txt_parser.py:99-107 | succeeds exactly when the file reads and decodes, giving normalised text; otherwise the read error under the TXT text prefix |
| TxtParser.ExtractTextWords | AI_document_processor/src/parsers/txt_parser.py:100-103 | the default encoding is UTF-8, and text without control characters gives its words joined by single spaces |
| TxtParser.ExtractMetadata | AI_document_processor/src/parsers/txt_parser.py:122-134 | succeeds exactly when stat does, with the file size and the two timestamps |
| TxtParser.MetadataOnlyFileFields | AI_document_processor/src/parsers/txt_parser.py:123-128 | every other field is absent and the keywords empty |
| TxtParser.OversizedStillExtracts | AI_document_processor/src/parsers/txt_parser.py:64-78 | a readable file over the ceiling is declined by `can_parse` yet its metadata and text still extract |
| TxtParser.Parse | AI_document_processor/src/parsers/txt_parser.py:64-83 | metadata, then text, then the document; each failure is reported as `Failed to parse TXT <path>: ...`; the document holds the extracted text and the stat size |
| TxtParser.Build | AI_document_processor/src/parsers/txt_parser.py:74 | a validation failure wrapped under the path, or a fresh valid PENDING document with exactly that content, metadata and size |
| Parsers.DefaultRegistry | AI_document_processor/src/parsers/__init__.py:11-12 | the registry holds the PDF parser, then the TXT parser |
| Parsers.GetDefaultParser | AI_document_processor/src/parsers/base.py:295-304 | on the default registry, PDF is chosen exactly when the PDF parser accepts, TXT exactly when the TXT parser does, and None when neither does |
| Parsers.DefaultSelection | AI_document_processor/src/parsers/__init__.py:11-12 | the same three facts about the first-match rule over [PDF, TXT] |
| Parsers.DefaultNames | AI_document_processor/src/parsers/base.py:306-313 | the default registry lists `PDFParser`, then `TxtParser` |
| Parsers.FormatsDisjoint | AI_document_processor/src/parsers/pdf_parser.py:51-53 | no file is accepted by both parsers |
| Parsers.OversizedUnparsed | AI_document_processor/src/parsers/base.py:165-171 | a file over the ceiling gets no parser |
| Parsers.OtherExtensionsUnparsed | AI_document_processor/src/parsers/txt_parser.py:38-40 | only `.pdf` and `.txt` files get a parser |
| Models.ValidateFilename | AI_document_processor/src/models.py:156-161 | refuses exactly the empty and all-whitespace names with the "Filename cannot be empty" message, and otherwise stores the name trimmed |
| Models.TrimmedNameValid | AI_document_processor/src/models.py:156-161 | a stored (trimmed) name passes the validator again unchanged |
| Models.ValidateFileSize | AI_document_processor/src/models.py:163-168 | refuses exactly the negative sizes; zero is allowed |
| Models.ValidationFailures | AI_document_processor/src/models.py:156-168 | no failure exactly when both validators accept |
| Models.ValidationAccepts | AI_document_processor/src/models.py:156-168 | construction is accepted exactly for a non-blank name and a non-negative size |
| Models.Document.constructor | AI_document_processor/src/models.py:126-151 | a new document is PENDING, takes `created_at` and `updated_at` from their own clock reads, has no completion time or error, empty log, entities and chunks, and a trimmed name |
| Models.NewDocument | AI_document_processor/src/models.py:126-168 | the validation error listing every refused field, or such a new document |
| Models.Document.AddProcessingLog | AI_document_processor/src/models.py:170-174 | exactly one timestamped entry is appended |
| Models.Document.UpdateStatus | AI_document_processor/src/models.py:176-188 | any status is taken; `updated_at` gets the first clock read; `processed_at` gets the second read exactly on COMPLETED and is otherwise kept; a non-empty error message is stored and logged once; identity, name, content, metadata and creation time are unchanged |
| Models.ReopenKeepsProcessedAt | AI_document_processor/src/models.py:180-184 | a document completed and then set to PROCESSING still carries its completion time, while `updated_at` moves on |
| Models.Defaults | AI_document_processor/src/models.py:33-65 | empty metadata has all eleven optional fields absent and no keywords; default options enable all five analyses, with chunk size 1000, overlap 200, summaries of at most 500, no image extraction and the layout preserved |
| Config.CommaList | AI_document_processor/src/config.py:68-80 | text gives entry i = the i-th comma piece trimmed, one per comma plus one, each comma-free and trimmed; a list passes unchanged |
| Config.Validated | AI_document_processor/src/config.py:68-80 | both list fields are their text passed through the comma-list validator, and every other field is unchanged |
| Config.ListPropertyAfterValidation | AI_document_processor/src/config.py:82-94 | the list properties return an already validated list as it is |
| Config.ListOfPieces | AI_document_processor/src/config.py:72 | comma-free trimmed pieces joined by commas list back as those pieces |
| Config.DefaultSizes | AI_document_processor/src/config.py:39-44 | a 50 MB ceiling of 52,428,800 bytes, chunk size 1000 and overlap 200 |
| Config.JoinExtensions | AI_document_processor/src/config.py:40 | the default extensions text is the seven extensions joined by commas |
| Config.DefaultExtensionsList | AI_document_processor/src/config.py:40 | splitting the default extensions text gives back exactly the seven extensions |
| Config.DefaultExtensionsSetting | AI_document_processor/src/config.py:40 | the validated default setting lists the seven extensions in source order |
| Config.JoinOrigins | AI_document_processor/src/config.py:50 | the default origins text is the two local origins joined by a comma |
| Config.DefaultOriginsList | AI_document_processor/src/config.py:50 | splitting the default origins text gives back exactly the two origins |
| Config.DefaultOriginsSetting | AI_document_processor/src/config.py:50 | the validated default setting lists the two local origins |
| Config.ValidateSetup | AI_document_processor/src/config.py:108-115 | passes exactly when the OpenAI or the Gemini key is non-empty |

## Left out

- I/O is not modelled; each call is an input in `Environment`:
  - the file system calls (`Path.stat`, `os.access`, `open` and decoding, `os.makedirs`, image file writes);
  - PyMuPDF (`fitz.open`, `get_text`, `authenticate`, `Pixmap`, `tobytes`);
  - `mimetypes`.
  Foreign error texts are fixed placeholder strings.
- Logging, `uuid4` identifiers and `datetime.utcnow` are left out. Identifiers and times are parameters; each `utcnow` read is a parameter of its own (a new document's `created_at` and `updated_at` are the two fields of a `Models.Clock`); `fromtimestamp` is part of the file record.
- `get_file_info` is not a separate member. The TXT metadata reads the stat record directly, and the name, suffix and MIME entries of the dictionary are never read.
- PdfParser.ExtractImages: image files are not written. With an output directory an entry is the joined path, and a directory that is not writable stands for a write failure.
- `get_pdf_info`, `log_parsing_progress` and `create_directories` are left out: library aggregation, logging and directory creation.
- `BaseDocumentParser`'s abstract methods and its empty `supported_types` are left out. Each concrete parser's `supported_types` is a constant (`PdfParser.SupportedTypes`, `TxtParser.SupportedTypes`).
- Unicode is reduced to Python's whitespace set and code-point comparisons. `lower()` is modelled on the ASCII letters only.
- Text.PyInt: only the ASCII digits 0-9 are accepted. Python's `int()` also accepts other Unicode decimal digits, such as full-width ones.
- PdfParser.AverageBelowThreshold: the average is computed in exact real arithmetic. Floating-point rounding of the division is not modelled.
- Base.CreateDocument: filling `file_size` is modelled on values. The write into the caller's metadata object, and the aliasing it causes, is not captured.
- Models.NewDocument: the pydantic error text is approximated by the pydantic 1 layout.
- Only the `Document` validators are modelled. Field type coercion and the other models (`DocumentChunk`, `ExtractedEntity`, the summaries, jobs) are data only. `Document` does not carry the `summary`, `classification` and `sentiment` fields: no core operation reads or writes them, and they stay `None`.
- Path handling: `basename` and `splitext` follow POSIX separators. Drive letters and `os.path.join` normalisation are not modelled.
- The settings' environment-file loading and case-insensitive overrides are left out: `Settings` is a value.
- The rest of the repository (the analyst, agent, scraper, web and UI projects) is not part of this model.
