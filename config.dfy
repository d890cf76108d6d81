/** The application settings of `config.py`: the fields the document parsers
    read, the two comma-list validators, the list properties, the default
    values and the start-up check for an AI key. */
module Config {
  import opened Outcomes
  import opened Text

  /** A settings field declared as `str` whose validator may have replaced
      the text by a list. */
  datatype Setting = Str(text: string) | List(items: seq<string>)

  datatype Settings = Settings(
    openaiApiKey: Option<string>,
    geminiApiKey: Option<string>,
    maxFileSizeMb: int,
    supportedExtensions: Setting,
    chunkSize: int,
    chunkOverlap: int,
    maxSummaryLength: int,
    batchSize: int,
    allowedOrigins: Setting)

  const DefaultExtensionsText := ".pdf,.docx,.txt,.png,.jpg,.jpeg,.tiff"
  const DefaultOriginsText := "http://localhost:3000,http://localhost:8501"

  /** Both validators and both list properties: text is split on commas and
      every piece trimmed; a value that is already a list passes unchanged. */
  function CommaList(v: Setting): (r: Setting)
    ensures r.List?
    ensures v.List? ==> r == v
    ensures v.Str? ==> |r.items| == Count(v.text, ',') + 1
    ensures v.Str? ==> forall i :: 0 <= i < |r.items| ==> r.items[i] == Strip(SplitOn(v.text, ',')[i])
    ensures v.Str? ==> forall i :: 0 <= i < |r.items| ==> ',' !in r.items[i] && Strip(r.items[i]) == r.items[i]
  {
    match v
    case List(_) => v
    case Str(s) =>
      var items := SplitStrip(s, ',');
      assert forall i :: 0 <= i < |items| ==> ',' !in items[i] by {
        forall i | 0 <= i < |items| ensures ',' !in items[i] {
          StripAbsent(SplitOn(s, ',')[i], ',');
        }
      }
      List(items)
  }

  /** `supported_file_extensions` / `allowed_origins_list`: the field as a list. */
  function AsList(v: Setting): seq<string>
  {
    CommaList(v).items
  }

  /** Settings as pydantic builds them: the two validators applied. */
  function Validated(raw: Settings): (s: Settings)
    ensures s.supportedExtensions.List? && s.allowedOrigins.List?
    ensures s.supportedExtensions == CommaList(raw.supportedExtensions)
    ensures s.allowedOrigins == CommaList(raw.allowedOrigins)
    ensures s.openaiApiKey == raw.openaiApiKey && s.geminiApiKey == raw.geminiApiKey
    ensures s.maxFileSizeMb == raw.maxFileSizeMb && s.chunkSize == raw.chunkSize
    ensures s.chunkOverlap == raw.chunkOverlap && s.maxSummaryLength == raw.maxSummaryLength
    ensures s.batchSize == raw.batchSize
  {
    raw.(supportedExtensions := CommaList(raw.supportedExtensions),
         allowedOrigins := CommaList(raw.allowedOrigins))
  }

  /** The declared defaults, with no environment overrides. */
  function DefaultSettings(): Settings
  {
    Validated(Settings(None, None, 50, Str(DefaultExtensionsText), 1000, 200, 500, 5, Str(DefaultOriginsText)))
  }

  /** The byte ceiling `validate_file` enforces. */
  function MaxFileSizeBytes(s: Settings): int
  {
    s.maxFileSizeMb * 1024 * 1024
  }

  /** `validate_setup`: raises unless the OpenAI or the Gemini key is set to a
      non-empty value. */
  function ValidateSetup(s: Settings): (r: Outcome<string>)
    ensures r.Pass? <==> (Truthy(s.openaiApiKey) || Truthy(s.geminiApiKey))
  {
    if !Truthy(s.openaiApiKey) && !Truthy(s.geminiApiKey) then
      Fail("At least one AI API key (OpenAI or Gemini) must be provided")
    else Pass
  }

  /** The list properties return an already validated list as it is, so
      reading a property after validation gives the validated list. */
  lemma ListPropertyAfterValidation(v: Setting)
    ensures AsList(CommaList(v)) == AsList(v)
    ensures CommaList(CommaList(v)) == CommaList(v)
  {
  }

  // Splitting a literal on commas piece by piece.

  lemma SplitOnSeparatorFirst(b: string, d: char)
    ensures SplitOn([d] + b, d) == [[]] + SplitOn(b, d)
  {
    assert ([d] + b)[1..] == b;
  }

  /** One step of `split(d)` on text that does not start with `d`: the
      first character joins the first piece. */
  lemma SplitOnStep(s: string, d: char)
    requires s != [] && s[0] != d
    ensures var rest := SplitOn(s[1..], d);
      SplitOn(s, d) == [[s[0]] + rest[0]] + rest[1..]
  {
  }

  lemma {:induction false} SplitOnFree(w: string, d: char)
    requires d !in w
    ensures SplitOn(w, d) == [w]
  {
    if w != [] {
      SplitOnFree(w[1..], d);
    }
  }

  /** A comma-free piece followed by a comma is the first piece. */
  lemma {:induction false} SplitOnCons(w: string, rest: string, d: char)
    requires d !in w
    ensures SplitOn(w + [d] + rest, d) == [w] + SplitOn(rest, d)
  {
    if w == [] {
      SplitOnSeparatorFirst(rest, d);
      assert w + [d] + rest == [d] + rest;
    } else {
      var s := w + [d] + rest;
      assert s[0] == w[0] && s[1..] == w[1..] + [d] + rest;
      SplitOnCons(w[1..], rest, d);
      var r := [w[1..]] + SplitOn(rest, d);
      SplitOnStep(s, d);
      assert r[0] == w[1..] && r[1..] == SplitOn(rest, d);
      assert [w[0]] + w[1..] == w;
    }
  }

  lemma {:induction false} SplitOnJoin(pieces: seq<string>, d: char)
    requires pieces != []
    requires forall i :: 0 <= i < |pieces| ==> d !in pieces[i]
    ensures SplitOn(Join([d], pieces), d) == pieces
  {
    if |pieces| == 1 {
      assert Join([d], pieces) == pieces[0];
      SplitOnFree(pieces[0], d);
    } else {
      SplitOnJoin(pieces[1..], d);
      assert Join([d], pieces) == pieces[0] + [d] + Join([d], pieces[1..]);
      SplitOnCons(pieces[0], Join([d], pieces[1..]), d);
    }
  }

  /** A piece that `strip()` leaves as it is. */
  predicate Trimmed(w: string)
  {
    w != [] && !IsSpace(w[0]) && !IsSpace(w[|w| - 1])
  }

  /** Text made of comma-free, already trimmed pieces lists back as those pieces. */
  lemma ListOfPieces(s: string, pieces: seq<string>)
    requires pieces != [] && s == Join([','], pieces)
    requires forall i :: 0 <= i < |pieces| ==> ',' !in pieces[i] && Trimmed(pieces[i])
    ensures AsList(Str(s)) == pieces
  {
    SplitOnJoin(pieces, ',');
  }

  const DefaultExtensions: seq<string> := [".pdf", ".docx", ".txt", ".png", ".jpg", ".jpeg", ".tiff"]
  const DefaultOrigins: seq<string> := ["http://localhost:3000", "http://localhost:8501"]

  lemma ExtensionsUnfolded()
    ensures DefaultExtensionsText == ".pdf" + "," + (".docx" + "," + (".txt" + "," + (".png" + "," + (".jpg" + "," + (".jpeg" + "," + ".tiff")))))
  {
  }

  lemma JoinExtensions()
    ensures DefaultExtensionsText == Join([','], DefaultExtensions)
  {
    ExtensionsUnfolded();
  }

  lemma ExtensionPieces()
    ensures forall i :: 0 <= i < |DefaultExtensions| ==> ',' !in DefaultExtensions[i] && Trimmed(DefaultExtensions[i])
  {
  }

  lemma DefaultExtensionsList()
    ensures AsList(Str(DefaultExtensionsText)) == DefaultExtensions
  {
    JoinExtensions();
    ExtensionPieces();
    ListOfPieces(DefaultExtensionsText, DefaultExtensions);
  }

  lemma JoinOrigins()
    ensures DefaultOriginsText == Join([','], DefaultOrigins)
  {
    assert DefaultOriginsText == DefaultOrigins[0] + "," + DefaultOrigins[1];
  }

  lemma OriginPieces()
    ensures forall i :: 0 <= i < |DefaultOrigins| ==> ',' !in DefaultOrigins[i] && Trimmed(DefaultOrigins[i])
  {
  }

  lemma DefaultOriginsList()
    ensures AsList(Str(DefaultOriginsText)) == DefaultOrigins
  {
    JoinOrigins();
    OriginPieces();
    ListOfPieces(DefaultOriginsText, DefaultOrigins);
  }

  /** The numeric defaults: a 50 MB ceiling of 52,428,800 bytes, chunks of
      1000 characters overlapping by 200. */
  lemma DefaultSizes()
    ensures DefaultSettings().maxFileSizeMb == 50
    ensures MaxFileSizeBytes(DefaultSettings()) == 52428800
    ensures DefaultSettings().chunkSize == 1000 && DefaultSettings().chunkOverlap == 200
  {
  }

  /** The default extensions setting lists the seven extensions. */
  lemma DefaultExtensionsSetting()
    ensures AsList(DefaultSettings().supportedExtensions) == DefaultExtensions
  {
    DefaultExtensionsList();
  }

  /** The default origins setting lists the two local origins. */
  lemma DefaultOriginsSetting()
    ensures AsList(DefaultSettings().allowedOrigins) == DefaultOrigins
  {
    DefaultOriginsList();
  }
}
