/** `parsers/pdf_parser.py`: the PDF parser over PyMuPDF's view of a
    document (see the Environment module). */
module PdfParser {
  import opened Outcomes
  import opened Text
  import opened Dates
  import opened Config
  import opened Models
  import opened Environment
  import opened Base

  const ClassName := "PDFParser"

  /** The formats the parser declares. */
  const SupportedTypes := [PDF]

  // ---------------------------------------------------------------------
  // can_parse

  /** `can_parse`: a lowercased `.pdf` extension, a file `validate_file`
      accepts, and a container PyMuPDF opens and reports as PDF. Every
      exception on the way makes it false. */
  function CanParse(env: Env, path: string): (r: bool)
    ensures r <==> && Extension(Lower(path)) == ".pdf" && Acceptable(env, path)
                   && OpenPdf(env, path).Success? && OpenPdf(env, path).value.isPdf
  {
    if Extension(Lower(path)) != ".pdf" then false
    else if ValidateFile(env, path).Fail? then false
    else
      match OpenPdf(env, path)
      case Failure(_) => false
      case Success(doc) => doc.isPdf
  }

  /** Every path the parser accepts is classified as one of its declared
      formats. */
  lemma AcceptedTypeSupported(env: Env, path: string)
    requires CanParse(env, path)
    ensures GetDocumentType(path, GuessType(env, path)) in SupportedTypes
  {
    assert ".pdf" in ExtensionTypes;
  }

  // ---------------------------------------------------------------------
  // _parse_pdf_date

  /** The date text after an optional `D:` prefix. */
  function DateBody(dateStr: string): (s: string)
    ensures |s| <= |dateStr|
  {
    if |dateStr| >= 2 && dateStr[..2] == "D:" then dateStr[2..] else dateStr
  }

  /** `_parse_pdf_date`: `YYYYMMDD` then, where the text reaches them,
      `HH`, `mm` and `SS`; anything `int()` or `datetime()` refuses gives
      `None`. */
  function ParsePdfDate(dateStr: string): (r: Option<DateTime>)
    ensures r.Some? ==> Valid(r.value)
  {
    DateFields(DateBody(dateStr))
  }

  /** The date the text after the prefix spells. */
  function DateFields(s: string): (r: Option<DateTime>)
    ensures r.Some? ==> Valid(r.value)
  {
    var year := PyInt(Slice(s, 0, 4));
    var month := PyInt(Slice(s, 4, 6));
    var day := PyInt(Slice(s, 6, 8));
    var hour := if |s| > 8 then PyInt(Slice(s, 8, 10)) else Some(0);
    var minute := if |s| > 10 then PyInt(Slice(s, 10, 12)) else Some(0);
    var second := if |s| > 12 then PyInt(Slice(s, 12, 14)) else Some(0);
    Components(year, month, day, hour, minute, second)
  }

  /** The date the six parsed components make, if they all parsed. */
  function Components(year: Option<int>, month: Option<int>, day: Option<int>,
                      hour: Option<int>, minute: Option<int>, second: Option<int>): (r: Option<DateTime>)
    ensures r.Some? ==> Valid(r.value)
  {
    if year.Some? && month.Some? && day.Some? && hour.Some? && minute.Some? && second.Some? then
      MakeDateTime(year.value, month.value, day.value, hour.value, minute.value, second.value)
    else None
  }

  /** The decimal value of the two or four digits at `s[i..j]`. */
  function Field(s: string, i: nat, j: nat): nat
    requires i <= j <= |s|
  {
    DecimalValue(s[i..j])
  }

  lemma SliceOfDigits(s: string, i: nat, j: nat)
    requires i < j <= |s| && forall k :: i <= k < j ==> IsDigit(s[k])
    ensures PyInt(Slice(s, i, j)) == Some(Field(s, i, j))
  {
    assert Slice(s, i, j) == s[i..j];
    PyIntOfDigits(s[i..j]);
  }

  /** Each two- or four-digit field of fourteen digits parses. */
  lemma DigitFields(s: string)
    requires |s| >= 14 && forall k :: 0 <= k < 14 ==> IsDigit(s[k])
    ensures PyInt(Slice(s, 0, 4)) == Some(Field(s, 0, 4))
    ensures PyInt(Slice(s, 4, 6)) == Some(Field(s, 4, 6))
    ensures PyInt(Slice(s, 6, 8)) == Some(Field(s, 6, 8))
    ensures PyInt(Slice(s, 8, 10)) == Some(Field(s, 8, 10))
    ensures PyInt(Slice(s, 10, 12)) == Some(Field(s, 10, 12))
    ensures PyInt(Slice(s, 12, 14)) == Some(Field(s, 12, 14))
  {
    SliceOfDigits(s, 0, 4);
    SliceOfDigits(s, 4, 6);
    SliceOfDigits(s, 6, 8);
    SliceOfDigits(s, 8, 10);
    SliceOfDigits(s, 10, 12);
    SliceOfDigits(s, 12, 14);
  }

  /** Six parsed fields make the date they spell. */
  lemma FieldsOfDigits(s: string)
    requires |s| >= 14
    requires PyInt(Slice(s, 0, 4)) == Some(Field(s, 0, 4))
    requires PyInt(Slice(s, 4, 6)) == Some(Field(s, 4, 6))
    requires PyInt(Slice(s, 6, 8)) == Some(Field(s, 6, 8))
    requires PyInt(Slice(s, 8, 10)) == Some(Field(s, 8, 10))
    requires PyInt(Slice(s, 10, 12)) == Some(Field(s, 10, 12))
    requires PyInt(Slice(s, 12, 14)) == Some(Field(s, 12, 14))
    ensures DateFields(s) == MakeDateTime(Field(s, 0, 4), Field(s, 4, 6), Field(s, 6, 8),
                                          Field(s, 8, 10), Field(s, 10, 12), Field(s, 12, 14))
  {
  }

  /** Fourteen digits after the optional prefix give every component;
      whatever follows them (the time zone) is ignored. */
  lemma PdfDateFull(dateStr: string)
    requires var s := DateBody(dateStr); |s| >= 14 && forall k :: 0 <= k < 14 ==> IsDigit(s[k])
    ensures var s := DateBody(dateStr);
      ParsePdfDate(dateStr) == MakeDateTime(Field(s, 0, 4), Field(s, 4, 6), Field(s, 6, 8),
                                            Field(s, 8, 10), Field(s, 10, 12), Field(s, 12, 14))
  {
    var s := DateBody(dateStr);
    DigitFields(s);
    FieldsOfDigits(s);
  }

  /** Eight digits alone give midnight of that day. */
  lemma PdfDateDayOnly(dateStr: string)
    requires var s := DateBody(dateStr); |s| == 8 && forall k :: 0 <= k < 8 ==> IsDigit(s[k])
    ensures var s := DateBody(dateStr);
      ParsePdfDate(dateStr) == MakeDateTime(Field(s, 0, 4), Field(s, 4, 6), Field(s, 6, 8), 0, 0, 0)
  {
    var s := DateBody(dateStr);
    SliceOfDigits(s, 0, 4);
    SliceOfDigits(s, 4, 6);
    SliceOfDigits(s, 6, 8);
    assert ParsePdfDate(dateStr) == Components(
      Some(Field(s, 0, 4)), Some(Field(s, 4, 6)), Some(Field(s, 6, 8)), Some(0), Some(0), Some(0));
  }

  /** The time fields default to 0 only when the text stops before them: a
      present but unreadable hour makes the whole date `None`. */
  lemma PdfDateNoDefaultForPresentHour(dateStr: string)
    requires var s := DateBody(dateStr); |s| > 8 && PyInt(Slice(s, 8, 10)).None?
    ensures ParsePdfDate(dateStr) == None
  {
  }

  /** A year without a single digit (`"D:ABCD"`) gives `None`. */
  lemma PdfDateNeedsDigits(dateStr: string)
    requires var s := DateBody(dateStr); forall k :: 0 <= k < |s| && k < 4 ==> !IsDigit(s[k])
    ensures ParsePdfDate(dateStr) == None
  {
    var s := DateBody(dateStr);
    PyIntNeedsDigit(Slice(s, 0, 4));
  }

  /** The `D:` prefix is optional. */
  lemma PdfDatePrefixOptional(s: string)
    requires !(|s| >= 2 && s[..2] == "D:")
    ensures ParsePdfDate("D:" + s) == ParsePdfDate(s)
  {
    assert ("D:" + s)[..2] == "D:";
    assert ("D:" + s)[2..] == s;
  }

  /** Text after the fourteenth character of the body never matters. */
  lemma PdfDateIgnoresTail(dateStr: string, tail: string)
    requires |dateStr| >= 2 && |DateBody(dateStr)| >= 14
    ensures ParsePdfDate(dateStr + tail) == ParsePdfDate(dateStr)
  {
    var s, t := DateBody(dateStr), DateBody(dateStr + tail);
    assert (dateStr + tail)[..2] == dateStr[..2];
    assert t == s + tail by {
      if |dateStr| >= 2 && dateStr[..2] == "D:" {
        assert (dateStr + tail)[2..] == dateStr[2..] + tail;
      }
    }
    assert forall i: nat, j: nat :: i <= j <= 14 ==> Slice(t, i, j) == Slice(s, i, j);
  }

  /** Appending a digit shifts the value one decimal place. */
  lemma DecimalSnoc(s: string, c: char)
    requires IsDigit(c)
    ensures DecimalValue(s + [c]) == 10 * DecimalValue(s) + (c as int - '0' as int)
  {
    assert (s + [c])[..|s|] == s;
  }

  /** The value of two digits. */
  lemma TwoDigitValue(t: string)
    requires |t| == 2 && IsDigit(t[0]) && IsDigit(t[1])
    ensures DecimalValue(t) == 10 * (t[0] as int - '0' as int) + (t[1] as int - '0' as int)
  {
    DecimalSnoc([], t[0]);
    DecimalSnoc([t[0]], t[1]);
    assert t == [t[0]] + [t[1]];
  }

  /** The value of four digits. */
  lemma FourDigitValue(t: string)
    requires |t| == 4 && forall k :: 0 <= k < 4 ==> IsDigit(t[k])
    ensures DecimalValue(t) == 1000 * (t[0] as int - '0' as int) + 100 * (t[1] as int - '0' as int)
                               + 10 * (t[2] as int - '0' as int) + (t[3] as int - '0' as int)
  {
    TwoDigitValue(t[..2]);
    DecimalSnoc(t[..2], t[2]);
    assert t[..2] + [t[2]] == t[..3];
    DecimalSnoc(t[..3], t[3]);
    assert t[..3] + [t[3]] == t;
  }

  /** The fields of `20230615143022`. */
  lemma ExampleFields(s: string)
    requires s == "20230615143022"
    ensures Field(s, 0, 4) == 2023 && Field(s, 4, 6) == 6 && Field(s, 6, 8) == 15
    ensures Field(s, 8, 10) == 14 && Field(s, 10, 12) == 30 && Field(s, 12, 14) == 22
  {
    FourDigitValue(s[0..4]);
    TwoDigitValue(s[4..6]);
    TwoDigitValue(s[6..8]);
    TwoDigitValue(s[8..10]);
    TwoDigitValue(s[10..12]);
    TwoDigitValue(s[12..14]);
  }

  /** `D:20230615143022` is 15 June 2023, 14:30:22. */
  lemma PdfDateExample(dateStr: string)
    requires dateStr == "D:20230615143022"
    ensures ParsePdfDate(dateStr) == Some(DateTime(2023, 6, 15, 14, 30, 22))
  {
    var s := DateBody(dateStr);
    assert s == "20230615143022";
    PdfDateFull(dateStr);
    ExampleFields(s);
  }

  // ---------------------------------------------------------------------
  // extract_text

  const PasswordMissing := "PDF requires password but none provided"
  const PasswordInvalid := "Invalid PDF password"

  function TextError(message: string): DocumentParserError
  {
    DocumentParserError("Failed to extract text from PDF: " + message)
  }

  /** The `get_text("blocks")` entries whose text is not blank (`.strip()`
      is truthy exactly then, by Text.StripEmpty). */
  function NonBlank(blocks: seq<string>): (r: seq<string>)
    ensures forall b :: b in r ==> b in blocks && !IsBlank(b)
    ensures forall b :: b in blocks && !IsBlank(b) ==> b in r
  {
    if blocks == [] then []
    else
      var b := blocks[|blocks| - 1];
      NonBlank(blocks[..|blocks| - 1]) + (if IsBlank(b) then [] else [b])
  }

  /** Filtering a concatenation filters each part: the kept blocks stay in
      their order, repeats included. */
  lemma {:induction false} NonBlankAppend(a: seq<string>, b: seq<string>)
    ensures NonBlank(a + b) == NonBlank(a) + NonBlank(b)
  {
    if b == [] {
      assert a + b == a;
    } else {
      var init, last := b[..|b| - 1], b[|b| - 1];
      NonBlankAppend(a, init);
      DropLastOfAppend(a, b);
      var tail: seq<string> := if IsBlank(last) then [] else [last];
      var ab := a + b;
      var x, y := NonBlank(a), NonBlank(init);
      assert NonBlank(ab) == NonBlank(a + init) + tail;
      assert NonBlank(b) == y + tail;
      AppendAssoc(x, y, tail);
    }
  }

  lemma DropLastOfAppend<T>(a: seq<T>, b: seq<T>)
    requires b != []
    ensures (a + b)[..|a + b| - 1] == a + b[..|b| - 1] && (a + b)[|a + b| - 1] == b[|b| - 1]
  {
  }

  lemma AppendAssoc<T>(x: seq<T>, y: seq<T>, z: seq<T>)
    ensures x + y + z == x + (y + z)
  {
  }

  /** One block is kept exactly when it is not blank. */
  lemma NonBlankOne(b: string)
    ensures IsBlank(b) ==> NonBlank([b]) == []
    ensures !IsBlank(b) ==> NonBlank([b]) == [b]
  {
    assert [b][..0] == [];
  }

  /** The text one page contributes: `get_text("text")`, or the non-blank
      block texts one per line when the layout is not preserved. */
  function PageText(page: PdfPage, preserveLayout: bool): string
  {
    if preserveLayout then page.text else Join("\n", NonBlank(page.blocks))
  }

  function PageTexts(pages: seq<PdfPage>, preserveLayout: bool): (r: seq<string>)
    ensures |r| == |pages|
    ensures forall i :: 0 <= i < |pages| ==> r[i] == PageText(pages[i], preserveLayout)
  {
    seq(|pages|, i requires 0 <= i < |pages| => PageText(pages[i], preserveLayout))
  }

  /** The part page `number` (1-based) contributes. */
  function PageMarker(number: nat, text: string): string
  {
    "\n--- Page " + NatToString(number) + " ---\n" + text
  }

  /** The parts of the pages whose text is not blank, each numbered by its
      position among all pages. */
  function MarkedPages(texts: seq<string>): (r: seq<string>)
    ensures |r| <= |texts|
  {
    if texts == [] then []
    else
      var t := texts[|texts| - 1];
      MarkedPages(texts[..|texts| - 1]) + (if IsBlank(t) then [] else [PageMarker(|texts|, t)])
  }

  /** Every non-blank page has its numbered part, and every part is the
      numbered part of a non-blank page. */
  lemma {:induction false} MarkedPagesNumbering(texts: seq<string>)
    ensures forall i :: 0 <= i < |texts| && !IsBlank(texts[i]) ==> PageMarker(i + 1, texts[i]) in MarkedPages(texts)
    ensures forall m :: m in MarkedPages(texts) ==>
              exists i :: 0 <= i < |texts| && !IsBlank(texts[i]) && m == PageMarker(i + 1, texts[i])
  {
    if texts != [] {
      var init := texts[..|texts| - 1];
      MarkedPagesNumbering(init);
      assert forall i :: 0 <= i < |init| ==> init[i] == texts[i];
    }
  }

  /** One more page adds its part unless its text is blank. */
  lemma MarkedPagesStep(pages: seq<PdfPage>, n: nat, preserveLayout: bool)
    requires n < |pages|
    ensures var text := PageText(pages[n], preserveLayout);
      MarkedPages(PageTexts(pages[..n + 1], preserveLayout))
        == MarkedPages(PageTexts(pages[..n], preserveLayout)) + (if IsBlank(text) then [] else [PageMarker(n + 1, text)])
  {
    var texts := PageTexts(pages[..n + 1], preserveLayout);
    assert texts[..n] == PageTexts(pages[..n], preserveLayout);
  }

  /** What `extract_text` gives: the password checks come before any page
      is read; then the non-blank pages' parts, joined by newlines and
      normalised by `clean_text`. */
  function ExtractedText(env: Env, path: string, opts: ParseOptions): Result<string, DocumentParserError>
  {
    match OpenPdf(env, path)
    case Failure(e) => Failure(TextError(e))
    case Success(doc) =>
      if doc.needsPass && !Truthy(opts.password) then Failure(TextError(PasswordMissing))
      else if doc.needsPass && !Authenticates(doc, opts.password.value) then Failure(TextError(PasswordInvalid))
      else Success(CleanText(Join("\n", MarkedPages(PageTexts(doc.pages, opts.preserveLayout)))))
  }

  /** `extract_text`, visiting the pages in order. */
  method ExtractText(env: Env, path: string, opts: ParseOptions) returns (r: Result<string, DocumentParserError>)
    ensures r == ExtractedText(env, path, opts)
  {
    var container := OpenPdf(env, path);
    if container.Failure? {
      return Failure(TextError(container.error));
    }
    var doc := container.value;
    if doc.needsPass && !Truthy(opts.password) {
      return Failure(TextError(PasswordMissing));
    }
    if doc.needsPass && !Authenticates(doc, opts.password.value) {
      return Failure(TextError(PasswordInvalid));
    }
    var parts := MarkPages(doc.pages, opts.preserveLayout);
    r := Success(CleanText(Join("\n", parts)));
  }

  /** The page loop of `extract_text`: the parts of the non-blank pages. */
  method MarkPages(pages: seq<PdfPage>, preserveLayout: bool) returns (parts: seq<string>)
    ensures parts == MarkedPages(PageTexts(pages, preserveLayout))
  {
    parts := [];
    var n := 0;
    while n < |pages|
      invariant 0 <= n <= |pages|
      invariant parts == MarkedPages(PageTexts(pages[..n], preserveLayout))
    {
      var text := PageText(pages[n], preserveLayout);
      MarkedPagesStep(pages, n, preserveLayout);
      if !IsBlank(text) {
        parts := parts + [PageMarker(n + 1, text)];
      }
      n := n + 1;
    }
    assert pages[..n] == pages;
  }

  /** A locked document fails with the missing-password error when no
      password is given and the invalid-password error when the one given
      does not authenticate; it succeeds only once one does. */
  lemma PasswordChecks(env: Env, path: string, opts: ParseOptions)
    requires OpenPdf(env, path).Success? && OpenPdf(env, path).value.needsPass
    ensures var doc := OpenPdf(env, path).value;
      && (!Truthy(opts.password) ==> ExtractedText(env, path, opts) == Failure(TextError(PasswordMissing)))
      && (Truthy(opts.password) && !Authenticates(doc, opts.password.value) ==>
            ExtractedText(env, path, opts) == Failure(TextError(PasswordInvalid)))
      && (ExtractedText(env, path, opts).Success? <==> Truthy(opts.password) && Authenticates(doc, opts.password.value))
  {
  }

  // The markers do not survive `clean_text`: it splits on every whitespace
  // character, newlines included, and joins with single spaces.

  function MarkerWords(number: nat): seq<string>
  {
    ["---", "Page", NatToString(number), "---"]
  }

  /** The words `clean_text` leaves of the pages: `--- Page n ---` and the
      page's own words for each non-blank page. */
  function PageWords(texts: seq<string>): seq<string>
  {
    if texts == [] then []
    else
      var t := texts[|texts| - 1];
      PageWords(texts[..|texts| - 1]) + (if IsBlank(t) then [] else MarkerWords(|texts|) + Tokens(t))
  }

  lemma NoControlConcat(a: string, b: string)
    requires NoControl(a) && NoControl(b)
    ensures NoControl(a + b)
  {
    forall i | 0 <= i < |a + b| ensures (a + b)[i] as int >= 32 || IsSpace((a + b)[i]) {
      if i >= |a| {
        assert (a + b)[i] == b[i - |a|];
      }
    }
  }

  lemma MarkerWordsAreTokens(number: nat)
    ensures forall w :: w in MarkerWords(number) ==> IsToken(w)
  {
    var num := NatToString(number);
    assert forall i :: 0 <= i < |num| ==> IsDigit(num[i]);
  }

  /** The marker's words joined by single spaces: `--- Page n ---`. */
  lemma MarkerJoin(number: nat)
    ensures Join(" ", MarkerWords(number)) == "--- Page " + NatToString(number) + " ---"
  {
    var p := MarkerWords(number);
    assert p[1..][1..][1..] == ["---"];
    assert Join(" ", p[1..][1..]) == NatToString(number) + " " + "---";
    assert Join(" ", p[1..]) == "Page" + " " + (NatToString(number) + " " + "---");
  }

  lemma MarkerTokens(number: nat, t: string)
    ensures Tokens(PageMarker(number, t)) == MarkerWords(number) + Tokens(t)
  {
    var words := MarkerWords(number);
    var m := Join(" ", words);
    MarkerWordsAreTokens(number);
    MarkerJoin(number);
    var rest := m + ['\n'] + t;
    assert PageMarker(number, t) == [] + ['\n'] + rest;
    TokensAroundSpace([], '\n', rest);
    TokensOfJoinThen(words, '\n', t);
  }

  lemma MarkerNoControl(number: nat, t: string)
    requires NoControl(t)
    ensures NoControl(PageMarker(number, t))
  {
    var head, num, mid := "\n--- Page ", NatToString(number), " ---\n";
    assert PageMarker(number, t) == head + (num + (mid + t));
    NoControlConcat(mid, t);
    NoControlConcat(num, mid + t);
    NoControlConcat(head, num + (mid + t));
  }

  lemma {:induction false} FlattenedPages(texts: seq<string>)
    requires forall i :: 0 <= i < |texts| ==> NoControl(texts[i])
    ensures NoControl(Join("\n", MarkedPages(texts)))
    ensures Tokens(Join("\n", MarkedPages(texts))) == PageWords(texts)
  {
    if texts != [] {
      var init, t := texts[..|texts| - 1], texts[|texts| - 1];
      assert forall i :: 0 <= i < |init| ==> init[i] == texts[i];
      FlattenedPages(init);
      var prev := MarkedPages(init);
      if IsBlank(t) {
        assert MarkedPages(texts) == prev + [] == prev;
        assert PageWords(texts) == PageWords(init) + [] == PageWords(init);
        assert Join("\n", MarkedPages(texts)) == Join("\n", prev);
      } else {
        var m := PageMarker(|texts|, t);
        assert MarkedPages(texts) == prev + [m];
        JoinSnoc("\n", prev, m);
        MarkerTokens(|texts|, t);
        MarkerNoControl(|texts|, t);
        if prev != [] {
          TokensAroundSpace(Join("\n", prev), '\n', m);
          NoControlConcat(Join("\n", prev), "\n");
          NoControlConcat(Join("\n", prev) + "\n", m);
        } else {
          assert Tokens(Join("\n", prev)) == [];
        }
      }
    }
  }

  /** For page texts without control characters other than whitespace,
      the extracted text is the page words joined by single spaces. */
  lemma PdfTextFlattened(texts: seq<string>)
    requires forall i :: 0 <= i < |texts| ==> NoControl(texts[i])
    ensures CleanText(Join("\n", MarkedPages(texts))) == Join(" ", PageWords(texts))
  {
    FlattenedPages(texts);
    CleanTextOfNoControl(Join("\n", MarkedPages(texts)));
  }

  lemma {:induction false} JoinAppend(sep: string, xs: seq<string>, ys: seq<string>)
    requires xs != [] && ys != []
    ensures Join(sep, xs + ys) == Join(sep, xs) + sep + Join(sep, ys)
  {
    if |xs| == 1 {
      assert (xs + ys)[1..] == ys;
    } else {
      assert (xs + ys)[1..] == xs[1..] + ys;
      JoinAppend(sep, xs[1..], ys);
    }
  }

  /** One page's words joined: `--- Page n --- word`. */
  lemma JoinMarker(number: nat, word: string)
    ensures Join(" ", MarkerWords(number) + [word]) == "--- Page " + NatToString(number) + " --- " + word
  {
    var p := MarkerWords(number) + [word];
    assert p[1..][1..][1..][1..] == [word];
    assert Join(" ", p[1..][1..][1..]) == "---" + " " + word;
    assert Join(" ", p[1..][1..]) == NatToString(number) + " " + ("---" + " " + word);
    assert Join(" ", p[1..]) == "Page" + " " + (NatToString(number) + " " + ("---" + " " + word));
  }

  /** The words of pages 1 and 3, joined. */
  lemma ExampleJoin(a: string, b: string)
    ensures Join(" ", (MarkerWords(1) + [a]) + (MarkerWords(3) + [b])) == "--- Page 1 --- " + a + " --- Page 3 --- " + b
  {
    JoinAppend(" ", MarkerWords(1) + [a], MarkerWords(3) + [b]);
    JoinMarker(1, a);
    JoinMarker(3, b);
    assert NatToString(1) == "1" && NatToString(3) == "3";
    var one, three := "--- Page " + "1" + " --- ", "--- Page " + "3" + " --- ";
    assert one == "--- Page 1 --- ";
    assert " " + three == " --- Page 3 --- ";
    assert (one + a) + " " + (three + b) == one + a + (" " + three) + b;
  }

  lemma ExampleWords(a: string, blank: string, b: string)
    requires IsToken(a) && IsToken(b) && IsBlank(blank)
    ensures PageWords([a, blank, b]) == (MarkerWords(1) + [a]) + (MarkerWords(3) + [b])
  {
    var texts := [a, blank, b];
    TokensOfToken(a);
    TokensOfToken(b);
    assert texts[..2][..1] == [a] && texts[..2] == [a, blank];
    assert PageWords([a]) == MarkerWords(1) + [a];
  }

  /** Two one-word pages around a blank one: the blank page is skipped and
      the third keeps its number. */
  lemma PdfTextExample(a: string, blank: string, b: string)
    requires IsToken(a) && IsToken(b) && Printable(a) && Printable(b) && IsBlank(blank)
    ensures CleanText(Join("\n", MarkedPages([a, blank, b]))) == "--- Page 1 --- " + a + " --- Page 3 --- " + b
  {
    var texts := [a, blank, b];
    assert forall i :: 0 <= i < |texts| ==> NoControl(texts[i]);
    PdfTextFlattened(texts);
    ExampleWords(a, blank, b);
    ExampleJoin(a, b);
  }

  // ---------------------------------------------------------------------
  // extract_metadata

  function MetadataError(message: string): DocumentParserError
  {
    DocumentParserError("Failed to extract PDF metadata: " + message)
  }

  /** A date entry is decoded only when present and non-empty; one that
      does not decode leaves the field absent. */
  function DateEntry(value: Option<string>): (r: Option<DateTime>)
    ensures r.Some? ==> Truthy(value) && Valid(r.value)
  {
    if Truthy(value) then ParsePdfDate(value.value) else None
  }

  /** The keywords entry, split on commas and each piece trimmed. */
  function KeywordEntry(value: Option<string>): seq<string>
  {
    if Truthy(value) then SplitStrip(value.value, ',') else []
  }

  /** `extract_metadata`: the document dictionary's entries, the page count
      and the size on disk; a document whose dictionary PyMuPDF withholds
      fails on the first `.get`. */
  function ExtractMetadata(env: Env, path: string): (r: Result<DocumentMetadata, DocumentParserError>)
    ensures r.Success? <==> OpenPdf(env, path).Success? && OpenPdf(env, path).value.metadata.Some?
    ensures OpenPdf(env, path).Failure? ==> r == Failure(MetadataError(OpenPdf(env, path).error))
    ensures OpenPdf(env, path).Success? && OpenPdf(env, path).value.metadata.None? ==>
              r == Failure(MetadataError(NoMetadataError))
    ensures r.Success? ==>
      && r.value.pageCount == Some(|OpenPdf(env, path).value.pages|)
      && r.value.fileSize == Some(env.files[path].size as int)
      && r.value.wordCount.None? && r.value.language.None?
  {
    match OpenPdf(env, path)
    case Failure(e) => Failure(MetadataError(e))
    case Success(doc) =>
      match doc.metadata
      case None => Failure(MetadataError(NoMetadataError))
      case Some(info) =>
        var stat := Stat(env, path);
        Success(EmptyMetadata.(
          title := Get(info, "title"),
          author := Get(info, "author"),
          subject := Get(info, "subject"),
          creator := Get(info, "creator"),
          producer := Get(info, "producer"),
          creationDate := DateEntry(Get(info, "creationDate")),
          modificationDate := DateEntry(Get(info, "modDate")),
          pageCount := Some(|doc.pages|),
          keywords := KeywordEntry(Get(info, "keywords")),
          fileSize := Some(stat.value.size as int)))
  }

  /** The entries of the dictionary: the text fields as given, the dates
      decoded where they can be (an undecodable date does not fail the
      extraction), and the keywords one per comma-separated piece, trimmed
      and comma-free, or none when the entry is absent or empty. */
  lemma MetadataEntries(env: Env, path: string)
    requires OpenPdf(env, path).Success? && OpenPdf(env, path).value.metadata.Some?
    ensures var info := OpenPdf(env, path).value.metadata.value;
            var md := ExtractMetadata(env, path).value;
      && md.title == Get(info, "title") && md.author == Get(info, "author")
      && md.subject == Get(info, "subject") && md.creator == Get(info, "creator")
      && md.producer == Get(info, "producer")
      && (Truthy(Get(info, "creationDate")) ==> md.creationDate == ParsePdfDate(Get(info, "creationDate").value))
      && (!Truthy(Get(info, "creationDate")) ==> md.creationDate == None)
      && (Truthy(Get(info, "modDate")) ==> md.modificationDate == ParsePdfDate(Get(info, "modDate").value))
      && (!Truthy(Get(info, "modDate")) ==> md.modificationDate == None)
      && (!Truthy(Get(info, "keywords")) ==> md.keywords == [])
      && (Truthy(Get(info, "keywords")) ==>
            && |md.keywords| == Count(Get(info, "keywords").value, ',') + 1
            && (forall i :: 0 <= i < |md.keywords| ==>
                 md.keywords[i] == Strip(SplitOn(Get(info, "keywords").value, ',')[i]))
            && forall i :: 0 <= i < |md.keywords| ==>
                 ',' !in md.keywords[i] && (md.keywords[i] == [] || Trimmed(md.keywords[i])))
  {
    var info := OpenPdf(env, path).value.metadata.value;
    KeywordPieces(Get(info, "keywords"));
  }

  /** The keywords entry is the comma-separated pieces in order, each
      trimmed: one per comma plus one, none comma-free or untrimmed, and no
      entry at all when the keywords are absent or empty. */
  lemma KeywordPieces(value: Option<string>)
    ensures !Truthy(value) ==> KeywordEntry(value) == []
    ensures Truthy(value) ==>
      var r := KeywordEntry(value);
      && |r| == Count(value.value, ',') + 1
      && (forall i :: 0 <= i < |r| ==> r[i] == Strip(SplitOn(value.value, ',')[i]))
      && forall i :: 0 <= i < |r| ==> ',' !in r[i] && (r[i] == [] || Trimmed(r[i]))
  {
    if Truthy(value) {
      var pieces := SplitOn(value.value, ',');
      var r := SplitStrip(value.value, ',');
      forall i | 0 <= i < |r| ensures ',' !in r[i] && (r[i] == [] || Trimmed(r[i])) {
        assert r[i] == Strip(pieces[i]);
        StripAbsent(pieces[i], ',');
      }
    }
  }

  // ---------------------------------------------------------------------
  // extract_images

  /** What `extract_images` collects: the PNG data, or the path written to. */
  datatype ExtractedImage = ImageData(data: seq<bv8>) | ImagePath(path: string)

  /** Images with four or more colour channels (CMYK) are skipped. */
  predicate Kept(pix: Pixmap)
  {
    pix.n - pix.alpha < 4
  }

  /** The file name of image `index` on page `page`, both 1-based. */
  function ImageName(page: nat, index: nat): string
  {
    "page_" + NatToString(page) + "_img_" + NatToString(index) + ".png"
  }

  /** `os.path.join(directory, name)` for a non-empty directory and a
      relative name. */
  function JoinPath(directory: string, name: string): string
  {
    if directory != [] && directory[|directory| - 1] == '/' then directory + name else directory + "/" + name
  }

  /** An image whose extraction raises: the pixmap cannot be built, or a
      kept image cannot be encoded or its directory cannot be created. */
  predicate ImageFails(env: Env, image: Result<Pixmap, string>, outputDir: Option<string>)
  {
    || image.Failure?
    || (Kept(image.value) && (image.value.png.Failure? || (Truthy(outputDir) && outputDir.value !in env.writableDirs)))
  }

  /** The entry for a kept image. */
  function ImageEntry(page: nat, index: nat, pix: Pixmap, outputDir: Option<string>): ExtractedImage
    requires pix.png.Success?
  {
    if Truthy(outputDir) then ImagePath(JoinPath(outputDir.value, ImageName(page, index)))
    else ImageData(pix.png.value)
  }

  /** The entries of the kept images of page `page`, numbered by position
      among all the page's images. */
  function PageImages(page: nat, images: seq<Result<Pixmap, string>>, outputDir: Option<string>): seq<ExtractedImage>
  {
    if images == [] then []
    else
      var image := images[|images| - 1];
      PageImages(page, images[..|images| - 1], outputDir)
        + (if image.Success? && Kept(image.value) && image.value.png.Success?
           then [ImageEntry(page, |images|, image.value, outputDir)] else [])
  }

  /** The entries of every page's kept images, pages in order. */
  function AllImages(pages: seq<PdfPage>, outputDir: Option<string>): seq<ExtractedImage>
  {
    if pages == [] then []
    else AllImages(pages[..|pages| - 1], outputDir) + PageImages(|pages|, pages[|pages| - 1].images, outputDir)
  }

  /** Some image of some page fails. */
  predicate AnyImageFails(env: Env, pages: seq<PdfPage>, outputDir: Option<string>)
  {
    exists p, k :: 0 <= p < |pages| && 0 <= k < |pages[p].images| && ImageFails(env, pages[p].images[k], outputDir)
  }

  /** What `extract_images` gives: every kept image in order, or nothing
      at all when anything on the way raises (a document that needs a
      password cannot have its pages read). */
  function ExtractedImages(env: Env, path: string, outputDir: Option<string>): seq<ExtractedImage>
  {
    match OpenPdf(env, path)
    case Failure(_) => []
    case Success(doc) =>
      if doc.needsPass && doc.pages != [] then []
      else if AnyImageFails(env, doc.pages, outputDir) then []
      else AllImages(doc.pages, outputDir)
  }

  /** `extract_images`, page by page and image by image. */
  method ExtractImages(env: Env, path: string, outputDir: Option<string>) returns (images: seq<ExtractedImage>)
    ensures images == ExtractedImages(env, path, outputDir)
  {
    var container := OpenPdf(env, path);
    if container.Failure? {
      return [];
    }
    var pages := container.value.pages;
    if container.value.needsPass && pages != [] {
      return [];
    }
    images := [];
    var p := 0;
    while p < |pages|
      invariant 0 <= p <= |pages|
      invariant images == AllImages(pages[..p], outputDir)
      invariant !AnyImageFails(env, pages[..p], outputDir)
    {
      var found, ok := PageImagesOf(env, p + 1, pages[p].images, outputDir);
      if !ok {
        assert AnyImageFails(env, pages, outputDir) by {
          var k :| 0 <= k < |pages[p].images| && ImageFails(env, pages[p].images[k], outputDir);
          assert ImageFails(env, pages[p].images[k], outputDir);
        }
        return [];
      }
      assert pages[..p + 1][..p] == pages[..p];
      NoFailureStep(env, pages, p, outputDir);
      images := images + found;
      p := p + 1;
    }
    assert pages[..p] == pages;
  }

  /** Extending the pages without a failing image by one page whose images
      do not fail. */
  lemma NoFailureStep(env: Env, pages: seq<PdfPage>, p: nat, outputDir: Option<string>)
    requires p < |pages| && !AnyImageFails(env, pages[..p], outputDir)
    requires forall k :: 0 <= k < |pages[p].images| ==> !ImageFails(env, pages[p].images[k], outputDir)
    ensures !AnyImageFails(env, pages[..p + 1], outputDir)
  {
    var next := pages[..p + 1];
    forall q, k | 0 <= q < |next| && 0 <= k < |next[q].images|
      ensures !ImageFails(env, next[q].images[k], outputDir)
    {
      if q < p {
        assert next[q] == pages[..p][q];
      }
    }
  }

  /** The inner loop over one page's images: its entries, or `ok` false
      when one of them fails. */
  method PageImagesOf(env: Env, page: nat, images: seq<Result<Pixmap, string>>, outputDir: Option<string>)
    returns (found: seq<ExtractedImage>, ok: bool)
    ensures ok <==> forall k :: 0 <= k < |images| ==> !ImageFails(env, images[k], outputDir)
    ensures ok ==> found == PageImages(page, images, outputDir)
  {
    found := [];
    var k := 0;
    while k < |images|
      invariant 0 <= k <= |images|
      invariant found == PageImages(page, images[..k], outputDir)
      invariant forall j :: 0 <= j < k ==> !ImageFails(env, images[j], outputDir)
    {
      assert images[..k + 1][..k] == images[..k];
      var image := images[k];
      if image.Failure? {
        return found, false;
      }
      var pix := image.value;
      if pix.n - pix.alpha < 4 {
        if pix.png.Failure? {
          return found, false;
        }
        if Truthy(outputDir) {
          if outputDir.value !in env.writableDirs {
            return found, false;
          }
          found := found + [ImagePath(JoinPath(outputDir.value, ImageName(page, k + 1)))];
        } else {
          found := found + [ImageData(pix.png.value)];
        }
      }
      k := k + 1;
    }
    assert images[..k] == images;
    ok := true;
  }

  /** An image that yields an entry. */
  predicate Yields(image: Result<Pixmap, string>)
  {
    image.Success? && Kept(image.value) && image.value.png.Success?
  }

  lemma {:induction false} PageImagesNaming(page: nat, images: seq<Result<Pixmap, string>>, dir: string)
    requires dir != []
    ensures forall k :: 0 <= k < |images| && Yields(images[k]) ==>
              ImagePath(JoinPath(dir, ImageName(page, k + 1))) in PageImages(page, images, Some(dir))
    ensures forall x :: x in PageImages(page, images, Some(dir)) ==>
              exists k :: 0 <= k < |images| && Yields(images[k]) && x == ImagePath(JoinPath(dir, ImageName(page, k + 1)))
  {
    if images != [] {
      var init := images[..|images| - 1];
      PageImagesNaming(page, init, dir);
      assert forall k :: 0 <= k < |init| ==> init[k] == images[k];
    }
  }

  /** With an output directory, the entries are exactly the paths
      `dir/page_p_img_k.png` of the kept, encodable images, `p` and `k`
      counting from 1 over all pages and all images of a page, skipped
      ones included. */
  lemma ImageNaming(pages: seq<PdfPage>, dir: string)
    requires dir != []
    ensures forall p, k :: 0 <= p < |pages| && 0 <= k < |pages[p].images| && Yields(pages[p].images[k]) ==>
              ImagePath(JoinPath(dir, ImageName(p + 1, k + 1))) in AllImages(pages, Some(dir))
    ensures forall x :: x in AllImages(pages, Some(dir)) ==>
              exists p, k :: && 0 <= p < |pages| && 0 <= k < |pages[p].images| && Yields(pages[p].images[k])
                             && x == ImagePath(JoinPath(dir, ImageName(p + 1, k + 1)))
  {
    ImagePathsPresent(pages, dir);
    ImagePathsOnly(pages, dir);
  }

  lemma {:induction false} ImagePathsPresent(pages: seq<PdfPage>, dir: string)
    requires dir != []
    ensures forall p, k :: 0 <= p < |pages| && 0 <= k < |pages[p].images| && Yields(pages[p].images[k]) ==>
              ImagePath(JoinPath(dir, ImageName(p + 1, k + 1))) in AllImages(pages, Some(dir))
  {
    if pages != [] {
      var init, last := pages[..|pages| - 1], pages[|pages| - 1];
      var before, here := AllImages(init, Some(dir)), PageImages(|pages|, last.images, Some(dir));
      assert AllImages(pages, Some(dir)) == before + here;
      ImagePathsPresent(init, dir);
      PageImagesNaming(|pages|, last.images, dir);
      forall p, k | 0 <= p < |pages| && 0 <= k < |pages[p].images| && Yields(pages[p].images[k])
        ensures ImagePath(JoinPath(dir, ImageName(p + 1, k + 1))) in before + here
      {
        if p < |init| {
          assert init[p] == pages[p];
        }
      }
    }
  }

  lemma {:induction false} ImagePathsOnly(pages: seq<PdfPage>, dir: string)
    requires dir != []
    ensures forall x :: x in AllImages(pages, Some(dir)) ==>
              exists p, k :: && 0 <= p < |pages| && 0 <= k < |pages[p].images| && Yields(pages[p].images[k])
                             && x == ImagePath(JoinPath(dir, ImageName(p + 1, k + 1)))
  {
    if pages != [] {
      var init, last := pages[..|pages| - 1], pages[|pages| - 1];
      var before, here := AllImages(init, Some(dir)), PageImages(|pages|, last.images, Some(dir));
      assert AllImages(pages, Some(dir)) == before + here;
      ImagePathsOnly(init, dir);
      PageImagesNaming(|pages|, last.images, dir);
      forall x | x in before + here
        ensures exists p, k :: && 0 <= p < |pages| && 0 <= k < |pages[p].images| && Yields(pages[p].images[k])
                               && x == ImagePath(JoinPath(dir, ImageName(p + 1, k + 1)))
      {
        if x in before {
          var p, k :| && 0 <= p < |init| && 0 <= k < |init[p].images| && Yields(init[p].images[k])
                      && x == ImagePath(JoinPath(dir, ImageName(p + 1, k + 1)));
          assert init[p] == pages[p];
        } else {
          var k :| 0 <= k < |last.images| && Yields(last.images[k])
                   && x == ImagePath(JoinPath(dir, ImageName(|pages|, k + 1)));
          assert pages[|pages| - 1] == last;
        }
      }
    }
  }

  /** A grey image, a CMYK image and an RGB image on the first page give
      the files for images 1 and 3: the numbering keeps the gap. */
  lemma ImageGapExample(grey: Pixmap, cmyk: Pixmap, rgb: Pixmap, text: string, dir: string)
    requires grey.n == 1 && grey.alpha == 0 && grey.png.Success?
    requires cmyk.n == 4 && cmyk.alpha == 0
    requires rgb.n == 3 && rgb.alpha == 0 && rgb.png.Success?
    requires dir != []
    ensures AllImages([PdfPage(text, [], [Success(grey), Success(cmyk), Success(rgb)])], Some(dir))
            == [ImagePath(JoinPath(dir, ImageName(1, 1))), ImagePath(JoinPath(dir, ImageName(1, 3)))]
  {
    var images := [Success(grey), Success(cmyk), Success(rgb)];
    assert images[..2][..1] == [Success(grey)] && images[..2] == [Success(grey), Success(cmyk)];
    var first := ImagePath(JoinPath(dir, ImageName(1, 1)));
    assert PageImages(1, images[..1], Some(dir)) == [first];
    assert PageImages(1, images[..2], Some(dir)) == [first];
    assert PageImages(1, images, Some(dir)) == [first, ImagePath(JoinPath(dir, ImageName(1, 3)))];
    var pages := [PdfPage(text, [], images)];
    assert pages[..0] == [];
  }

  /** `page_1_img_3.png` */
  lemma ImageNameExample()
    ensures ImageName(1, 3) == "page_1_img_3.png"
  {
    var one, three := NatToString(1), NatToString(3);
    assert one == "1";
    assert three == "3";
    assert ImageName(1, 3) == "page_" + one + "_img_" + three + ".png";
  }

  /** How many images are collected does not depend on where they go. */
  lemma {:induction false} ImageCountIgnoresDirectory(pages: seq<PdfPage>, d1: Option<string>, d2: Option<string>)
    ensures |AllImages(pages, d1)| == |AllImages(pages, d2)|
  {
    if pages != [] {
      ImageCountIgnoresDirectory(pages[..|pages| - 1], d1, d2);
      PageCountIgnoresDirectory(|pages|, pages[|pages| - 1].images, d1, d2);
    }
  }

  lemma {:induction false} PageCountIgnoresDirectory(page: nat, images: seq<Result<Pixmap, string>>, d1: Option<string>, d2: Option<string>)
    ensures |PageImages(page, images, d1)| == |PageImages(page, images, d2)|
  {
    if images != [] {
      PageCountIgnoresDirectory(page, images[..|images| - 1], d1, d2);
    }
  }

  // ---------------------------------------------------------------------
  // is_scanned_pdf

  /** The number of characters the page texts keep after stripping. */
  function StrippedLength(texts: seq<string>): nat
  {
    if texts == [] then 0 else StrippedLength(texts[..|texts| - 1]) + |Strip(texts[|texts| - 1])|
  }

  /** The scanned-document rule without the division: fewer than 50
      stripped characters per page on average, an empty document counting
      as scanned. */
  predicate Scanned(texts: seq<string>)
  {
    |texts| == 0 || StrippedLength(texts) < 50 * |texts|
  }

  /** What `is_scanned_pdf` gives; any exception gives false. */
  function ScannedOutcome(env: Env, path: string): bool
  {
    match OpenPdf(env, path)
    case Failure(_) => false
    case Success(doc) =>
      if doc.needsPass && doc.pages != [] then false else Scanned(PageTexts(doc.pages, true))
  }

  /** The average compared in real numbers agrees with the rule. */
  lemma AverageRule(total: nat, pages: nat)
    requires pages > 0
    ensures total as real / pages as real < 50.0 <==> total < 50 * pages
  {
    var t, p := total as real, pages as real;
    var average := t / p;
    assert average * p == t;
    if average < 50.0 {
      ProductBelow(average, 50.0, p);
    } else if average > 50.0 {
      ProductBelow(50.0, average, p);
    }
  }

  lemma ProductBelow(a: real, b: real, p: real)
    requires a < b && p > 0.0
    ensures a * p < b * p
  {
    assert (b - a) * p > 0.0;
  }

  /** `is_scanned_pdf`: sum the stripped page lengths, divide by the page
      count, compare with 50. */
  method IsScannedPdf(env: Env, path: string) returns (scanned: bool)
    ensures scanned == ScannedOutcome(env, path)
  {
    var container := OpenPdf(env, path);
    if container.Failure? {
      return false;
    }
    var pages := container.value.pages;
    if container.value.needsPass && pages != [] {
      return false;
    }
    var total := SumStripped(pages);
    scanned := AverageBelowThreshold(total, |pages|);
  }

  /** The loop of `is_scanned_pdf`: the stripped text length of every page. */
  method SumStripped(pages: seq<PdfPage>) returns (total: nat)
    ensures total == StrippedLength(PageTexts(pages, true))
  {
    ghost var texts := PageTexts(pages, true);
    total := 0;
    var i := 0;
    while i < |pages|
      invariant 0 <= i <= |pages|
      invariant total == StrippedLength(texts[..i])
    {
      StrippedStep(texts, i);
      total := total + |Strip(pages[i].text)|;
      i := i + 1;
    }
    assert texts[..i] == texts;
  }

  /** One more text adds its stripped length. */
  lemma StrippedStep(texts: seq<string>, i: nat)
    requires i < |texts|
    ensures StrippedLength(texts[..i + 1]) == StrippedLength(texts[..i]) + |Strip(texts[i])|
  {
    var done := texts[..i + 1];
    assert done[..i] == texts[..i];
  }

  /** `average = total / pages if pages > 0 else 0; average < 50`, in exact
      real arithmetic: the division-free rule. */
  method AverageBelowThreshold(total: nat, pages: nat) returns (below: bool)
    ensures below <==> pages == 0 || total < 50 * pages
  {
    var average: real := if pages > 0 then total as real / pages as real else 0.0;
    if pages > 0 {
      AverageRule(total, pages);
    }
    below := average < 50.0;
  }

  /** One page: 49 stripped characters is scanned, 50 is not. */
  lemma ScannedThreshold(t: string)
    ensures Scanned([t]) <==> |Strip(t)| < 50
  {
    assert [t][..0] == [];
    assert StrippedLength([t]) == |Strip(t)|;
  }

  lemma ScannedEmpty()
    ensures Scanned([])
  {
  }

  // ---------------------------------------------------------------------
  // parse

  function ParseError(path: string, message: string): DocumentParserError
  {
    DocumentParserError("Failed to parse PDF " + path + ": " + message)
  }

  /** The metadata `parse` leaves on the document: when images are
      requested, the keywords gain `image_count_<n>`, where n is how many
      images `extract_images` returns without an output directory. */
  function ImageCounted(env: Env, path: string, opts: ParseOptions, md: DocumentMetadata): DocumentMetadata
  {
    if opts.extractImages then md.(keywords := md.keywords + [ImageCountKeyword(|ExtractedImages(env, path, None)|)])
    else md
  }

  function ImageCountKeyword(count: nat): string
  {
    "image_count_" + NatToString(count)
  }

  /** `parse`: metadata first, then the text, then the document; any
      failure is reported under the path and no document is returned. */
  method Parse(env: Env, path: string, opts: ParseOptions, id: string, clock: Clock)
    returns (r: Result<Document, DocumentParserError>)
    ensures ExtractMetadata(env, path).Failure? ==>
              r == Failure(ParseError(path, ExtractMetadata(env, path).error.message))
    ensures ExtractMetadata(env, path).Success? && ExtractedText(env, path, opts).Failure? ==>
              r == Failure(ParseError(path, ExtractedText(env, path, opts).error.message))
    ensures ExtractMetadata(env, path).Success? && ExtractedText(env, path, opts).Success? ==>
              Assembled(env, path, opts, ExtractMetadata(env, path).value, ExtractedText(env, path, opts).value, id, clock, r)
  {
    var metadata := ExtractMetadata(env, path);
    if metadata.Failure? {
      return Failure(ParseError(path, metadata.error.message));
    }
    var content := ExtractText(env, path, opts);
    if content.Failure? {
      return Failure(ParseError(path, content.error.message));
    }
    r := Assemble(env, path, opts, metadata.value, content.value, id, clock);
  }

  /** The outcome of building the document from extracted metadata `md`
      (which carries the file size) and text `content`: a validation failure
      reported under the path, or a fresh PENDING document whose metadata
      gained the image-count keyword when images were requested. */
  ghost predicate Assembled(env: Env, path: string, opts: ParseOptions, md: DocumentMetadata, content: string,
                            id: string, clock: Clock, r: Result<Document, DocumentParserError>)
    requires md.fileSize.Some?
    reads if r.Success? then {r.value} else {}
  {
    var failures := ValidationFailures(Basename(path), md.fileSize.value);
    && (r.Failure? <==> failures != [])
    && (r.Failure? ==> r.error == ParseError(path, ValidationMessage(failures)))
    && (r.Success? ==>
          && r.value.Valid()
          && r.value.Initial(id, Basename(path), path, GetDocumentType(path, GuessType(env, path)),
                             md.fileSize.value, content,
                             ImageCounted(env, path, opts, md),
                             DefaultOptions, clock))
  }

  /** The part of `parse` after the extractions: `create_document`, then
      the image count. */
  method Assemble(env: Env, path: string, opts: ParseOptions, md: DocumentMetadata, content: string,
                  id: string, clock: Clock)
    returns (r: Result<Document, DocumentParserError>)
    requires md.fileSize.Some?
    ensures r.Success? ==> fresh(r.value)
    ensures Assembled(env, path, opts, md, content, id, clock, r)
  {
    ghost var kind := GetDocumentType(path, GuessType(env, path));
    assert FilledMetadata(env, path, Some(md)) == Success(md);
    var created := CreateDocument(env, path, content, Some(md), id, clock);
    if created.Failure? {
      return Failure(ParseError(path, created.error));
    }
    var document := created.value;
    assert document.Initial(id, Basename(path), path, kind, md.fileSize.value, content, md, DefaultOptions, clock);
    if opts.extractImages {
      AddImageCount(env, path, document, id, Basename(path), kind, md.fileSize.value, content, md, clock);
    }
    return Success(document);
  }

  /** The image step of `parse`: `extract_images` without an output
      directory, then `image_count_<n>` appended to the keywords of the
      document, which is otherwise left in its initial state. */
  method AddImageCount(env: Env, path: string, document: Document, ghost id: string, ghost filename: string,
                       ghost kind: DocumentType, ghost size: int, ghost content: string,
                       ghost md: DocumentMetadata, ghost clock: Clock)
    modifies document
    requires document.Valid()
    requires document.Initial(id, filename, path, kind, size, content, md, DefaultOptions, clock)
    ensures document.Valid()
    ensures document.Initial(id, filename, path, kind, size, content,
                             md.(keywords := md.keywords + [ImageCountKeyword(|ExtractedImages(env, path, None)|)]),
                             DefaultOptions, clock)
  {
    var images := ExtractImages(env, path, None);
    document.metadata := document.metadata.(keywords := document.metadata.keywords + [ImageCountKeyword(|images|)]);
  }

  /** A document that needs a password never gives its metadata:
      `extract_metadata` opens it without the password, PyMuPDF withholds
      the dictionary, and the first `.get` fails. */
  lemma LockedNeverParses(env: Env, path: string)
    requires WellFormed(env)
    requires OpenPdf(env, path).Success? && OpenPdf(env, path).value.needsPass
    ensures ExtractMetadata(env, path) == Failure(MetadataError(NoMetadataError))
  {
    assert Withheld(env.files[path].container.value);
  }

  /** So `parse` of such a document fails whatever password the options
      carry, before the password is ever tried. */
  method ParseLocked(env: Env, path: string, opts: ParseOptions, id: string, clock: Clock)
    returns (r: Result<Document, DocumentParserError>)
    requires WellFormed(env)
    requires OpenPdf(env, path).Success? && OpenPdf(env, path).value.needsPass
    ensures r == Failure(ParseError(path, MetadataError(NoMetadataError).message))
  {
    LockedNeverParses(env, path);
    r := Parse(env, path, opts, id, clock);
  }
}
