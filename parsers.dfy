/** The parser package: the two format parsers and the registry that the
    package fills at import time, PDF first and TXT second. */
module Parsers {
  import opened Outcomes
  import opened Text
  import opened Config
  import opened Environment
  import opened Base
  import PdfParser
  import TxtParser

  datatype Parser = Pdf | Txt

  /** `parser.__class__.__name__` */
  function ClassName(p: Parser): string
  {
    match p
    case Pdf => PdfParser.ClassName
    case Txt => TxtParser.ClassName
  }

  /** `parser.can_parse(path)`; neither parser lets an exception escape. */
  function CanParse(env: Env, path: string, p: Parser): bool
  {
    match p
    case Pdf => PdfParser.CanParse(env, path)
    case Txt => TxtParser.CanParse(env, path)
  }

  /** The probe `get_parser(path)` applies to each registered parser. */
  function ProbeOf(env: Env, path: string): Parser -> Probe
  {
    p => if CanParse(env, path, p) then Accepts else Declines
  }

  /** The registry as the package leaves it: PDF registered, then TXT. */
  method DefaultRegistry() returns (registry: ParserRegistry<Parser>)
    ensures fresh(registry)
    ensures registry.parsers == [Pdf, Txt]
  {
    registry := new ParserRegistry();
    registry.Register(Pdf);
    registry.Register(Txt);
  }

  /** `get_parser` on the default registry. */
  method GetDefaultParser(env: Env, path: string) returns (r: Option<Parser>)
    ensures r.Some? <==> PdfParser.CanParse(env, path) || TxtParser.CanParse(env, path)
    ensures r == Some(Pdf) <==> PdfParser.CanParse(env, path)
    ensures r == Some(Txt) <==> TxtParser.CanParse(env, path)
  {
    var registry := DefaultRegistry();
    r := registry.GetParser(ProbeOf(env, path));
    DefaultSelection(env, path);
  }

  /** `list_parsers` on the default registry names PDF before TXT. */
  lemma DefaultNames(registry: ParserRegistry<Parser>)
    requires registry.parsers == [Pdf, Txt]
    ensures registry.ListParsers(ClassName) == ["PDFParser", "TxtParser"]
  {
    var names := registry.ListParsers(ClassName);
    assert names[0] == "PDFParser" && names[1] == "TxtParser";
  }

  /** The two parsers accept disjoint sets of files: `.pdf` and `.txt`. */
  lemma FormatsDisjoint(env: Env, path: string)
    ensures !(PdfParser.CanParse(env, path) && TxtParser.CanParse(env, path))
  {
    assert ".pdf" != ".txt";
  }

  /** On the default registry, PDF is chosen exactly when the PDF parser
      accepts, TXT exactly when the TXT parser does, and nothing otherwise. */
  lemma DefaultSelection(env: Env, path: string)
    ensures var r := FirstAccepting([Pdf, Txt], ProbeOf(env, path));
      && (r == Some(Pdf) <==> PdfParser.CanParse(env, path))
      && (r == Some(Txt) <==> TxtParser.CanParse(env, path))
      && (r.None? <==> !PdfParser.CanParse(env, path) && !TxtParser.CanParse(env, path))
  {
    var probe := ProbeOf(env, path);
    assert [Pdf, Txt][1..] == [Txt];
    assert [Txt][1..] == [];
    FormatsDisjoint(env, path);
    if !probe(Pdf).Accepts? {
      assert FirstAccepting([Pdf, Txt], probe) == FirstAccepting([Txt], probe);
    }
  }

  /** A file over the size ceiling gets no parser, whatever its extension. */
  lemma OversizedUnparsed(env: Env, path: string)
    requires path in env.files && env.files[path].size > MaxFileSizeBytes(env.settings)
    ensures FirstAccepting([Pdf, Txt], ProbeOf(env, path)).None?
  {
    DefaultSelection(env, path);
  }

  /** Only `.pdf` and `.txt` files get a parser: a `.docx` file, although
      its extension is in the default supported list, gets none. */
  lemma OtherExtensionsUnparsed(env: Env, path: string)
    requires Extension(Lower(path)) != ".pdf" && Extension(Lower(path)) != ".txt"
    ensures FirstAccepting([Pdf, Txt], ProbeOf(env, path)).None?
  {
    DefaultSelection(env, path);
  }
}
