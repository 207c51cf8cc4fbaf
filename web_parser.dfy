/**
 * `WebParser.parse_into_text`: the title chosen for a scraped page and the
 * body text rebuilt from the page's lines. The browser, the HTML parser and
 * the event loop are outside the model; the page arrives as the values the
 * code reads from the parsed document.
 */
module WebParser {
  import opened Wrappers
  import opened PyStr

  /**
   * What `parse_into_text` reads from the parsed document: `soup.get_text("\n")`,
   * the `<title>` element (None when there is none; Some(None) when its
   * `.string` is None) and the text of the first `<h1>`, if any.
   */
  datatype Page = Page(text: string, titleTag: Option<Option<string>>, h1: Option<string>)

  /** The document `scrape` returns when navigation fails: an empty page. */
  const EmptyPage := Page("", None, None)

  const DefaultTitle := "Untitled Web Page"

  /**
   * The title: the one passed to the parser when it is not "", otherwise the
   * `<title>` string; when that is missing or empty, the first `<h1>`'s text
   * (used even when empty), and failing that the default.
   */
  function ChooseTitle(provided: string, page: Page): (r: string)
    ensures provided != "" ==> r == provided
    ensures provided == "" && page.titleTag.Some? && page.titleTag.value.Some? && page.titleTag.value.value != "" ==>
      r == page.titleTag.value.value
    ensures r == "" ==> provided == "" && page.h1 == Some("")
  {
    var tag := if provided != "" then Some(provided)
               else if page.titleTag.Some? then page.titleTag.value
               else None;
    if tag.Some? && tag.value != "" then tag.value
    else if page.h1.Some? then page.h1.value
    else DefaultTitle
  }

  /** Without a usable `<title>`, the title comes from the `<h1>` or is the default. */
  lemma TitleFallback(provided: string, page: Page)
    requires provided == ""
    requires page.titleTag.None? || page.titleTag.value.None? || page.titleTag.value.value == ""
    ensures page.h1.Some? ==> ChooseTitle(provided, page) == page.h1.value
    ensures page.h1.None? ==> ChooseTitle(provided, page) == DefaultTitle
  {
  }

  /** `line.strip()` for each line of `lines` whose stripped form is not empty. */
  function StrippedLines(lines: seq<string>): (r: seq<string>)
    ensures |r| <= |lines|
  {
    if lines == [] then []
    else
      var l := Strip(lines[0]);
      if l == "" then StrippedLines(lines[1..]) else [l] + StrippedLines(lines[1..])
  }

  /** The body: the page text's lines, stripped, blank ones dropped, joined by "\n". */
  function NormaliseBody(text: string): string {
    Join("\n", StrippedLines(SplitLines(text)))
  }

  /** A line of the rebuilt body: non-empty, no line break, no whitespace at either end. */
  predicate CleanLine(l: string) {
    l != "" && !HasLineBreak(l) && !IsSpace(l[0]) && !IsSpace(l[|l| - 1])
  }

  /** Stripping a line without breaks leaves a line without breaks. */
  lemma StripKeepsNoBreak(l: string)
    requires !HasLineBreak(l)
    ensures !HasLineBreak(Strip(l))
  {
    StripShape(l);
    var k :| OccursAt(l, Strip(l), k);
    var r := Strip(l);
    forall i | 0 <= i < |r|
      ensures !IsLineBreak(r[i])
    {
      assert r[i] == l[k + i];
    }
  }

  /** Every line `StrippedLines` keeps from break-free lines is clean. */
  lemma {:induction false} StrippedLinesClean(lines: seq<string>)
    requires forall k :: 0 <= k < |lines| ==> !HasLineBreak(lines[k])
    ensures forall k :: 0 <= k < |StrippedLines(lines)| ==> CleanLine(StrippedLines(lines)[k])
  {
    if lines != [] {
      var tail := StrippedLines(lines[1..]);
      StrippedLinesClean(lines[1..]);
      var l := Strip(lines[0]);
      if l != "" {
        StripShape(lines[0]);
        StripKeepsNoBreak(lines[0]);
        assert CleanLine(l);
        assert StrippedLines(lines) == [l] + tail;
      }
    }
  }

  /** Clean lines pass through `StrippedLines` unchanged. */
  lemma {:induction false} StrippedLinesOfClean(lines: seq<string>)
    requires forall k :: 0 <= k < |lines| ==> CleanLine(lines[k])
    ensures StrippedLines(lines) == lines
  {
    if lines != [] {
      StripFixed(lines[0]);
      StrippedLinesOfClean(lines[1..]);
    }
  }

  /** Breaking lines joined by "\n" gives the lines back, when none is empty or holds a break. */
  lemma {:induction false} SplitLinesOfJoin(lines: seq<string>)
    requires forall k :: 0 <= k < |lines| ==> lines[k] != [] && !HasLineBreak(lines[k])
    ensures SplitLines(Join("\n", lines)) == lines
  {
    if |lines| > 1 {
      var head := lines[0];
      var tail := lines[1..];
      var rest := Join("\n", tail);
      assert lines == [head] + tail;
      JoinCons("\n", head, tail);
      var s := head + "\n" + rest;
      var n := |head|;
      assert s[n] == '\n';
      forall k | 0 <= k < n
        ensures !IsLineBreak(s[k])
      {
        assert s[k] == head[k];
      }
      FirstLineBreakAt(s, n);
      assert s[..n] == head;
      assert s[n + 1..] == rest;
      SplitLinesOfJoin(tail);
    }
  }

  /**
   * The lines of the body are exactly the page's lines, stripped, with the
   * blank ones dropped; each is non-empty and has no whitespace at either end.
   */
  lemma BodyLines(text: string)
    ensures SplitLines(NormaliseBody(text)) == StrippedLines(SplitLines(text))
    ensures forall k :: 0 <= k < |SplitLines(NormaliseBody(text))| ==> CleanLine(SplitLines(NormaliseBody(text))[k])
  {
    var lines := StrippedLines(SplitLines(text));
    StrippedLinesClean(SplitLines(text));
    SplitLinesOfJoin(lines);
  }

  /** Rebuilding the body of an already rebuilt body changes nothing. */
  lemma NormaliseBodyIdempotent(text: string)
    ensures NormaliseBody(NormaliseBody(text)) == NormaliseBody(text)
  {
    BodyLines(text);
    StrippedLinesOfClean(StrippedLines(SplitLines(text)));
  }

  /**
   * `parse_into_text`: the title, a blank line and the body; when scraping or
   * decoding raised, the error message instead.
   */
  function ParseIntoText(provided: string, scraped: Result<Page>): (r: string)
    ensures scraped.Err? ==> r == "Error parsing web page: " + scraped.error
    ensures scraped.Ok? ==> r == ChooseTitle(provided, scraped.value) + "\n\n" + NormaliseBody(scraped.value.text)
  {
    match scraped {
      case Err(msg) => "Error parsing web page: " + msg
      case Ok(page) => ChooseTitle(provided, page) + "\n\n" + NormaliseBody(page.text)
    }
  }

  /** A page that could not be loaded gives the default title and an empty body. */
  lemma EmptyPageResult()
    ensures ParseIntoText("", Ok(EmptyPage)) == DefaultTitle + "\n\n"
  {
    assert SplitLines("") == [];
  }
}
