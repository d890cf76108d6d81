/** What the parsers see of the world: the file system, the MIME guesses
    of `mimetypes`, the settings, and PyMuPDF's view of each document. Each
    is an input here. The text of a foreign exception stands for what
    `str(e)` gives. */
module Environment {
  import opened Outcomes
  import opened Text
  import opened Dates
  import opened Config

  /** A decoded image: its channel count `n`, whether it has an alpha
      channel (0 or 1), and what `tobytes("png")` gives. */
  datatype Pixmap = Pixmap(n: int, alpha: int, png: Result<seq<bv8>, string>)

  /** One page: `get_text("text")`, the text field of each `get_text("blocks")`
      entry, and one `fitz.Pixmap(doc, xref)` outcome per `get_images()` entry. */
  datatype PdfPage = PdfPage(text: string, blocks: seq<string>, images: seq<Result<Pixmap, string>>)

  /** An opened document. `authenticate(pw)` succeeds for the passwords in
      `passwords`; `metadata` is `None` where PyMuPDF withholds it (a document
      that needs a password), otherwise the `doc.metadata` dictionary. */
  datatype PdfDoc = PdfDoc(
    isPdf: bool,
    needsPass: bool,
    passwords: set<string>,
    metadata: Option<map<string, string>>,
    pages: seq<PdfPage>)

  /** A directory entry: regular file or not, readable or not, `st_size`,
      the creation and modification times as `fromtimestamp` gives them,
      what `open(path, encoding=e).read()` gives for each encoding, and what
      `fitz.open(path)` gives. */
  datatype FileEntry = FileEntry(
    isFile: bool,
    readable: bool,
    size: nat,
    created: DateTime,
    modified: DateTime,
    decoded: map<string, Result<string, string>>,
    container: Result<PdfDoc, string>)

  /** The world: entries by path, `mimetypes.guess_type` by path, the
      directories image files can be written into, and the settings. */
  datatype Env = Env(
    files: map<string, FileEntry>,
    mimeGuess: map<string, string>,
    writableDirs: set<string>,
    settings: Settings)

  function NoSuchFile(path: string): string
  {
    "[Errno 2] No such file or directory: '" + path + "'"
  }

  /** `Path(path).stat()` */
  function Stat(env: Env, path: string): (r: Result<FileEntry, string>)
    ensures r.Success? <==> path in env.files
  {
    if path in env.files then Success(env.files[path]) else Failure(NoSuchFile(path))
  }

  /** `mimetypes.guess_type(path)[0]` */
  function GuessType(env: Env, path: string): Option<string>
  {
    if path in env.mimeGuess then Some(env.mimeGuess[path]) else None
  }

  /** `open(path, "r", encoding=encoding).read()`: opening fails first, then
      the codec lookup, then decoding. */
  function ReadText(env: Env, path: string, encoding: string): (r: Result<string, string>)
    ensures r.Success? ==> path in env.files && env.files[path].isFile && env.files[path].readable
  {
    if path !in env.files then Failure(NoSuchFile(path))
    else
      var f := env.files[path];
      if !f.isFile then Failure("[Errno 21] Is a directory: '" + path + "'")
      else if !f.readable then Failure("[Errno 13] Permission denied: '" + path + "'")
      else if encoding !in f.decoded then Failure("unknown encoding: " + encoding)
      else f.decoded[encoding]
  }

  /** `fitz.open(path)` */
  function OpenPdf(env: Env, path: string): (r: Result<PdfDoc, string>)
    ensures r.Success? ==> path in env.files
  {
    if path !in env.files then Failure("no such file: '" + path + "'")
    else env.files[path].container
  }

  /** `doc.authenticate(password)` is truthy. */
  predicate Authenticates(doc: PdfDoc, password: string)
  {
    password in doc.passwords
  }

  /** `d.get(key)` on a string dictionary. */
  function Get(d: map<string, string>, key: string): Option<string>
  {
    if key in d then Some(d[key]) else None
  }

  /** The `str(e)` of reading `.get` on the `None` PyMuPDF gives for withheld
      metadata. */
  const NoMetadataError := "'NoneType' object has no attribute 'get'"

  /** PyMuPDF withholds the dictionary of a document that needs a password
      until it is authenticated. */
  predicate Withheld(doc: PdfDoc)
  {
    doc.needsPass ==> doc.metadata.None?
  }

  /** Every document in the file system behaves as PyMuPDF does. */
  predicate WellFormed(env: Env)
  {
    forall p :: p in env.files && env.files[p].container.Success? ==> Withheld(env.files[p].container.value)
  }
}
