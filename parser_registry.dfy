/**
 * The parser facade: the table from file types to parser classes, the
 * case-insensitive lookup, and how `parse_file` and `parse_url` turn an
 * unsupported type or a raised exception into None. The parsers themselves
 * are passed in as the outcome of running one.
 */
module ParserRegistry {
  import opened Wrappers
  import opened PyStr

  datatype ParserKind = DocxParser | DocParser | PdfParser | MarkdownParser | TextParser | ImageParser

  /** `Parser.parsers`, fixed once `__init__` has built it. */
  const Parsers: map<string, ParserKind> := map[
    "docx" := DocxParser, "doc" := DocParser, "pdf" := PdfParser, "md" := MarkdownParser,
    "txt" := TextParser, "jpg" := ImageParser, "jpeg" := ImageParser, "png" := ImageParser,
    "gif" := ImageParser, "bmp" := ImageParser, "tiff" := ImageParser, "webp" := ImageParser,
    "markdown" := MarkdownParser]

  const ImageTypes: set<string> := {"jpg", "jpeg", "png", "gif", "bmp", "tiff", "webp"}

  /** `get_parser`: the class registered for the lower-cased type, if any. */
  function GetParser(fileType: string): (r: Option<ParserKind>)
    ensures r.Some? <==> Lower(fileType) in Parsers
    ensures r.Some? ==> r.value == Parsers[Lower(fileType)]
  {
    var key := Lower(fileType);
    if key in Parsers then Some(Parsers[key]) else None
  }

  /** Types differing only in letter case get the same parser. */
  lemma GetParserCaseInsensitive(a: string, b: string)
    requires Lower(a) == Lower(b)
    ensures GetParser(a) == GetParser(b)
  {
  }

  /** The registered names: the seven image extensions and six document types. */
  lemma RegisteredNames()
    ensures Parsers.Keys == ImageTypes + {"md", "markdown", "docx", "doc", "pdf", "txt"}
  {
  }

  /** Exactly the seven image extensions select the image parser. */
  lemma ImageTypesSelectImageParser(fileType: string)
    ensures GetParser(fileType) == Some(ImageParser) <==> Lower(fileType) in ImageTypes
  {
    var key := Lower(fileType);
    if key in Parsers && Parsers[key] == ImageParser {
      assert key in ImageTypes by { RegisteredNames(); }
    }
  }

  /** "md" and "markdown", and nothing else, select the Markdown parser. */
  lemma MarkdownNames(fileType: string)
    ensures GetParser(fileType) == Some(MarkdownParser) <==> Lower(fileType) in {"md", "markdown"}
  {
    MarkdownEntries();
  }

  /** The registry's entries for the Markdown parser. */
  lemma MarkdownEntries()
    ensures forall k :: k in Parsers && Parsers[k] == MarkdownParser <==> k in {"md", "markdown"}
  {
    forall k | k in Parsers && Parsers[k] == MarkdownParser ensures k in {"md", "markdown"} {
      RegisteredNames();
    }
  }

  /** A type outside the registry has no parser. */
  lemma UnknownTypeHasNoParser(fileType: string)
    ensures GetParser(fileType).None? <==> Lower(fileType) !in ImageTypes + {"md", "markdown", "docx", "doc", "pdf", "txt"}
  {
    RegisteredNames();
  }

  /** Upper-case file types are served: "PDF" gets the PDF parser. */
  lemma UpperCasePdf()
    ensures GetParser("PDF") == Some(PdfParser)
  {
    assert Lower("PDF") == "pdf";
  }

  /**
   * `parse_file`: None for an unsupported type or when the parser raises;
   * otherwise whatever the parser's `parse` returned, None included.
   * `run` gives the outcome of constructing and running each parser.
   */
  function ParseFile<R>(fileType: string, run: ParserKind -> Result<Option<R>>): (r: Option<R>)
    ensures GetParser(fileType).None? ==> r.None?
    ensures GetParser(fileType).Some? && run(GetParser(fileType).value).Err? ==> r.None?
    ensures r.Some? ==> GetParser(fileType).Some? && run(GetParser(fileType).value) == Ok(r)
  {
    var cls := GetParser(fileType);
    if cls.None? then None
    else match run(cls.value) {
      case Err(_) => None
      case Ok(result) => result
    }
  }

  /** `parse_url`: the web parser's result, or None when it raises. */
  function ParseUrl<R>(outcome: Result<Option<R>>): (r: Option<R>)
    ensures outcome.Err? ==> r.None?
    ensures outcome.Ok? ==> r == outcome.value
  {
    if outcome.Err? then None else outcome.value
  }
}
