/**
 * `PDFParser`: the Markdown rendering of extracted tables, the local
 * page-by-page reconstruction (table-detection cascade, the vertical-band
 * filter, page assembly and the page-break join) and the remote path's
 * data-URI strip and image-reference rewriting. pdfplumber, the MinerU
 * service, base64 decoding, PIL and the upload are outside the model: their
 * results are given as data or as functions.
 */
module PdfParser {
  import opened Wrappers
  import opened PyStr
  import Chunker

  /** A table row as pdfplumber extracts it; a cell may be None. */
  type Row = seq<Option<string>>

  /** `clean_cell`: None becomes "", and every newline becomes " <br> ". */
  function CleanCell(cell: Option<string>): (r: string)
    ensures '\n' !in r
    ensures cell.None? ==> r == ""
    ensures cell.Some? && '\n' !in cell.value ==> r == cell.value
  {
    if cell.None? then "" else ReplaceChar(cell.value, '\n', " <br> ")
  }

  function CleanRow(row: Row): (r: seq<string>)
    ensures |r| == |row| && forall k :: 0 <= k < |r| ==> '\n' !in r[k]
  {
    seq(|row|, k requires 0 <= k < |row| => CleanCell(row[k]))
  }

  /** One pipe-table line. */
  function RowLine(cells: seq<string>): string {
    "| " + Join(" | ", cells) + " |\n"
  }

  /** The delimiter row's cells: one `---` per header column. */
  function Dashes(n: nat): (r: seq<string>)
    ensures |r| == n && forall k :: 0 <= k < n ==> r[k] == "---"
  {
    seq(n, _ => "---")
  }

  /** A body row is kept when it is non-empty and as wide as the header. */
  predicate KeptRow(row: Row, width: nat) {
    row != [] && |row| == width
  }

  /** The kept body rows, in input order. */
  function Kept(rows: seq<Row>, width: nat): (r: seq<Row>)
    ensures |r| <= |rows|
    ensures forall k :: 0 <= k < |r| ==> KeptRow(r[k], width)
  {
    if rows == [] then []
    else
      var last := rows[|rows| - 1];
      Kept(rows[..|rows| - 1], width) + (if KeptRow(last, width) then [last] else [])
  }

  /** The lines of the given rows, in order. */
  function RowsText(rows: seq<Row>): string {
    if rows == [] then [] else RowsText(rows[..|rows| - 1]) + RowLine(CleanRow(rows[|rows| - 1]))
  }

  /**
   * `_convert_table_to_markdown` as a value: "" for an empty grid or an empty
   * header row, else the header line, the delimiter line and the kept rows.
   */
  function TableMarkdown(grid: seq<Row>): string {
    if grid == [] || grid[0] == [] then ""
    else
      RowLine(CleanRow(grid[0])) + RowLine(Dashes(|grid[0]|)) + RowsText(Kept(grid[1..], |grid[0]|))
  }

  /** `_convert_table_to_markdown`, building the text row by row. */
  method ConvertTableToMarkdown(grid: seq<Row>) returns (markdown: string)
    ensures markdown == TableMarkdown(grid)
  {
    if grid == [] || grid[0] == [] {
      return "";
    }
    var header := CleanRow(grid[0]);
    var width := |header|;
    markdown := RowLine(header);
    markdown := markdown + RowLine(Dashes(width));
    ghost var head := markdown;
    var i := 1;
    while i < |grid|
      invariant 1 <= i <= |grid|
      invariant markdown == head + RowsText(Kept(grid[1..i], width))
    {
      var row := grid[i];
      AddBodyRow(grid, i, width);
      if row != [] {
        var bodyRow := CleanRow(row);
        if |bodyRow| == width {
          AppendAssoc(head, RowsText(Kept(grid[1..i], width)), RowLine(bodyRow));
          markdown := markdown + RowLine(bodyRow);
        }
      }
      i := i + 1;
    }
    assert grid[1..i] == grid[1..];
  }

  /** One more row of the grid adds its line exactly when the row is kept. */
  lemma AddBodyRow(grid: seq<Row>, i: nat, width: nat)
    requires 1 <= i < |grid|
    ensures RowsText(Kept(grid[1..i + 1], width)) ==
      RowsText(Kept(grid[1..i], width)) + (if KeptRow(grid[i], width) then RowLine(CleanRow(grid[i])) else "")
  {
    assert grid[1..i + 1] == grid[1..i] + [grid[i]];
    KeptStep(grid[1..i], grid[i], width);
    if KeptRow(grid[i], width) {
      RowsTextStep(Kept(grid[1..i], width), grid[i]);
    } else {
      assert RowsText(Kept(grid[1..i], width)) + "" == RowsText(Kept(grid[1..i], width));
    }
  }

  lemma KeptStep(rows: seq<Row>, row: Row, width: nat)
    ensures Kept(rows + [row], width) == if KeptRow(row, width) then Kept(rows, width) + [row] else Kept(rows, width)
  {
    assert (rows + [row])[..|rows|] == rows;
    if !KeptRow(row, width) {
      assert Kept(rows, width) + [] == Kept(rows, width);
    }
  }

  lemma RowsTextStep(rows: seq<Row>, row: Row)
    ensures RowsText(rows + [row]) == RowsText(rows) + RowLine(CleanRow(row))
  {
    assert (rows + [row])[..|rows|] == rows;
  }

  /** Removing a row that is not kept leaves the kept rows unchanged. */
  lemma {:induction false} KeptDrop(rows: seq<Row>, width: nat, j: nat)
    requires j < |rows| && !KeptRow(rows[j], width)
    ensures Kept(rows[..j] + rows[j + 1..], width) == Kept(rows, width)
  {
    var n := |rows|;
    var rest := rows[..j] + rows[j + 1..];
    if j == n - 1 {
      assert rest == rows[..n - 1];
    } else {
      var init := rows[..n - 1];
      KeptDrop(init, width, j);
      assert rest[..|rest| - 1] == init[..j] + init[j + 1..];
      assert rest[|rest| - 1] == rows[n - 1];
    }
  }

  /**
   * An empty body row, or one whose width differs from the header, does not
   * show in the table: deleting it from the grid leaves the Markdown unchanged.
   */
  lemma DroppedRowInvisible(grid: seq<Row>, i: nat)
    requires 1 <= i < |grid| && (grid[i] == [] || |grid[i]| != |grid[0]|)
    ensures TableMarkdown(grid[..i] + grid[i + 1..]) == TableMarkdown(grid)
  {
    var g := grid[..i] + grid[i + 1..];
    assert g[0] == grid[0];
    assert g[1..] == grid[1..][..i - 1] + grid[1..][i..];
    KeptDrop(grid[1..], |grid[0]|, i - 1);
  }

  lemma RowLineOneNewline(cells: seq<string>)
    requires forall k :: 0 <= k < |cells| ==> '\n' !in cells[k]
    ensures CountChar(RowLine(cells), '\n') == 1
  {
    JoinAvoids(" | ", cells, '\n');
    CountCharAppend("| " + Join(" | ", cells), " |\n", '\n');
    CountCharAppend("| ", Join(" | ", cells), '\n');
    CountCharAbsent(Join(" | ", cells), '\n');
  }

  lemma {:induction false} RowsTextLines(rows: seq<Row>)
    ensures CountChar(RowsText(rows), '\n') == |rows|
  {
    if rows != [] {
      RowsTextLines(rows[..|rows| - 1]);
      RowLineOneNewline(CleanRow(rows[|rows| - 1]));
      CountCharAppend(RowsText(rows[..|rows| - 1]), RowLine(CleanRow(rows[|rows| - 1])), '\n');
    }
  }

  /**
   * Since no cleaned cell holds a newline, every row is exactly one line:
   * a table has the header line, the delimiter line and one line per kept row.
   */
  lemma TableLines(grid: seq<Row>)
    requires grid != [] && grid[0] != []
    ensures CountChar(TableMarkdown(grid), '\n') == 2 + |Kept(grid[1..], |grid[0]|)|
  {
    var a := RowLine(CleanRow(grid[0]));
    var b := RowLine(Dashes(|grid[0]|));
    var c := RowsText(Kept(grid[1..], |grid[0]|));
    RowLineOneNewline(CleanRow(grid[0]));
    RowLineOneNewline(Dashes(|grid[0]|));
    RowsTextLines(Kept(grid[1..], |grid[0]|));
    CountCharAppend(a + b, c, '\n');
    CountCharAppend(a, b, '\n');
  }

  /** A detected table: its vertical extent (`bbox[1]`, `bbox[3]`) and its cells. */
  datatype Table = Table(top: real, bottom: real, grid: seq<Row>)

  /** A positioned page object (a character, a line, ...). */
  datatype PdfObject = PdfObject(x0: real, x1: real, top: real, bottom: real)

  /**
   * One page as pdfplumber presents it: the tables found with the "lines"
   * and with the "text" vertical strategy, the objects on the page, and the
   * text extraction of a page restricted to some of its objects.
   */
  datatype PdfPage = PdfPage(
    linesTables: seq<Table>, textTables: seq<Table>, objects: seq<PdfObject>,
    extract: seq<PdfObject> -> string)

  /** The detection cascade: the fallback tier's tables only when the first tier found none. */
  function DetectTables(page: PdfPage): (r: seq<Table>)
    ensures r == page.linesTables || (page.linesTables == [] && r == page.textTables)
    ensures page.linesTables != [] ==> r == page.linesTables
  {
    if page.linesTables != [] then page.linesTables else page.textTables
  }

  /** The object's vertical centre lies in the table's band, bounds included. */
  predicate InBand(o: PdfObject, t: Table) {
    t.top <= (o.top + o.bottom) / 2.0 <= t.bottom
  }

  /** The object lies outside every table's band. */
  predicate OutsideAll(o: PdfObject, tables: seq<Table>) {
    forall k :: 0 <= k < |tables| ==> !InBand(o, tables[k])
  }

  /** `not_within_bboxes`: scan the tables, rejecting at the first band holding the centre. */
  method NotWithinBboxes(o: PdfObject, tables: seq<Table>) returns (keep: bool)
    ensures keep <==> OutsideAll(o, tables)
  {
    var i := 0;
    while i < |tables|
      invariant 0 <= i <= |tables|
      invariant forall k :: 0 <= k < i ==> !InBand(o, tables[k])
    {
      var b := tables[i];
      if b.top <= (o.top + o.bottom) / 2.0 <= b.bottom {
        return false;
      }
      i := i + 1;
    }
    return true;
  }

  /** `page.filter(not_within_bboxes)`: the objects kept, in page order. */
  function KeptObjects(objects: seq<PdfObject>, tables: seq<Table>): (r: seq<PdfObject>)
    ensures forall o :: o in r <==> o in objects && OutsideAll(o, tables)
    ensures |r| <= |objects|
  {
    if objects == [] then []
    else (if OutsideAll(objects[0], tables) then [objects[0]] else []) + KeptObjects(objects[1..], tables)
  }

  /** Only the vertical extent decides: objects that differ in x are kept or dropped alike. */
  lemma BandIgnoresX(o: PdfObject, p: PdfObject, tables: seq<Table>)
    requires o.top == p.top && o.bottom == p.bottom
    ensures OutsideAll(o, tables) <==> OutsideAll(p, tables)
  {
    assert (o.top + o.bottom) / 2.0 == (p.top + p.bottom) / 2.0;
  }

  /** With no table every object is kept. */
  lemma {:induction false} NoTablesKeepsAll(objects: seq<PdfObject>)
    ensures KeptObjects(objects, []) == objects
  {
    if objects != [] {
      NoTablesKeepsAll(objects[1..]);
      assert OutsideAll(objects[0], []);
    }
  }

  /** Each table's Markdown, wrapped in blank lines, in detection order. */
  function TablesText(tables: seq<Table>): string {
    if tables == [] then []
    else TablesText(tables[..|tables| - 1]) + "\n\n" + TableMarkdown(tables[|tables| - 1].grid) + "\n\n"
  }

  /** A page's output: the text outside the tables, then the tables. */
  function PageText(page: PdfPage): string {
    var tables := DetectTables(page);
    page.extract(KeptObjects(page.objects, tables)) + TablesText(tables)
  }

  /** A page where neither tier finds a table reads as its plain extracted text. */
  lemma PlainPage(page: PdfPage)
    requires page.linesTables == [] && page.textTables == []
    ensures PageText(page) == page.extract(page.objects)
  {
    NoTablesKeepsAll(page.objects);
  }

  /** The filtered page view: each object is tested against the table bands. */
  method FilterObjects(objects: seq<PdfObject>, tables: seq<Table>) returns (kept: seq<PdfObject>)
    ensures kept == KeptObjects(objects, tables)
  {
    kept := [];
    var j := 0;
    while j < |objects|
      invariant 0 <= j <= |objects|
      invariant kept + KeptObjects(objects[j..], tables) == KeptObjects(objects, tables)
    {
      var keep := NotWithinBboxes(objects[j], tables);
      assert objects[j..][1..] == objects[j + 1..];
      if keep {
        kept := kept + [objects[j]];
      }
      j := j + 1;
    }
  }

  lemma TablesTextStep(tables: seq<Table>, i: nat)
    requires i < |tables|
    ensures TablesText(tables[..i + 1]) == TablesText(tables[..i]) + ("\n\n" + TableMarkdown(tables[i].grid) + "\n\n")
  {
    assert tables[..i + 1][..i] == tables[..i];
  }

  /** The table parts of a page, appended after the parts already collected. */
  method AppendTables(parts: seq<string>, tables: seq<Table>) returns (parts': seq<string>)
    ensures Concat(parts') == Concat(parts) + TablesText(tables)
  {
    parts' := parts;
    var i := 0;
    while i < |tables|
      invariant 0 <= i <= |tables|
      invariant Concat(parts') == Concat(parts) + TablesText(tables[..i])
    {
      var md := ConvertTableToMarkdown(tables[i].grid);
      TablesTextStep(tables, i);
      ConcatAppend(parts', ["\n\n" + md + "\n\n"]);
      assert Concat(["\n\n" + md + "\n\n"]) == "\n\n" + md + "\n\n";
      AppendAssoc(Concat(parts), TablesText(tables[..i]), "\n\n" + md + "\n\n");
      parts' := parts' + ["\n\n" + md + "\n\n"];
      i := i + 1;
    }
    assert tables[..i] == tables;
  }

  /** The per-page body of the local loop: parts are collected, then joined with "". */
  method ProcessPage(page: PdfPage) returns (content: string)
    ensures content == PageText(page)
  {
    var parts: seq<string> := [];
    var found := page.linesTables;
    if found == [] {
      found := page.textTables;
    }
    var kept := FilterObjects(page.objects, found);
    var text := page.extract(kept);
    if text != "" {
      parts := parts + [text];
    }
    assert Concat(parts) == text;
    parts := AppendTables(parts, found);
    content := Concat(parts);
  }

  const PageBreak: string := "\n\n--- Page Break ---\n\n"

  /** The page texts, in page order. */
  function PageTexts(pages: seq<PdfPage>): (r: seq<string>)
    ensures |r| == |pages|
  {
    if pages == [] then [] else PageTexts(pages[..|pages| - 1]) + [PageText(pages[|pages| - 1])]
  }

  lemma PageTextsStep(ps: seq<PdfPage>, i: nat)
    requires i < |ps|
    ensures PageTexts(ps[..i + 1]) == PageTexts(ps[..i]) + [PageText(ps[i])]
  {
    assert ps[..i + 1][..i] == ps[..i];
  }

  /**
   * The local backend of `parse_into_text`. `pages` is None when pdfplumber
   * raised, which gives "". Otherwise the page texts are joined with the
   * page-break marker.
   */
  method ParseLocal(pages: Option<seq<PdfPage>>) returns (finalText: string)
    ensures pages.None? ==> finalText == ""
    ensures pages.Some? ==> finalText == Join(PageBreak, PageTexts(pages.value))
  {
    if pages.None? {
      return "";
    }
    var ps := pages.value;
    var all: seq<string> := [];
    var i := 0;
    while i < |ps|
      invariant 0 <= i <= |ps|
      invariant all == PageTexts(ps[..i])
    {
      var content := ProcessPage(ps[i]);
      PageTextsStep(ps, i);
      all := all + [content];
      i := i + 1;
    }
    assert ps[..i] == ps;
    finalText := Join(PageBreak, all);
  }

  /** The join has one page-break marker between each two pages. */
  lemma {:induction false} JoinedPages(texts: seq<string>)
    requires |texts| >= 2
    ensures Join(PageBreak, texts) == texts[0] + PageBreak + Join(PageBreak, texts[1..])
    ensures StartsWith(Join(PageBreak, texts), texts[0] + PageBreak)
  {
    var j := Join(PageBreak, texts);
    assert j == (texts[0] + PageBreak) + Join(PageBreak, texts[1..]);
    assert j[..|texts[0] + PageBreak|] == texts[0] + PageBreak;
  }

  /**
   * The data-URI prefix strip: a string starting with "data:" keeps what
   * follows its first comma; one without a comma makes `split(",", 1)[1]`
   * raise. Other strings are left alone.
   */
  function StripDataUri(s: string): (r: Option<string>)
    ensures !StartsWith(s, "data:") ==> r == Some(s)
    ensures StartsWith(s, "data:") && ',' !in s ==> r == None
    ensures StartsWith(s, "data:") && ',' in s ==>
      r.Some? && exists k :: 0 <= k < |s| && s[k] == ',' && ',' !in s[..k] && r.value == s[k + 1..]
  {
    if !StartsWith(s, "data:") then Some(s)
    else if ',' in s then
      var k := IndexOf(s, ',');
      Some(s[k + 1..])
    else None
  }

  /**
   * The Markdown from the remote service, cut at the matches of the image
   * pattern: plain text, and image references `![alt](` + path + `)`.
   */
  datatype MdPiece = Plain(s: string) | ImageRef(prefix: string, path: string, suffix: string)

  function PieceText(p: MdPiece): string {
    match p
    case Plain(s) => s
    case ImageRef(prefix, path, suffix) => prefix + path + suffix
  }

  function PiecesText(pieces: seq<MdPiece>): string {
    if pieces == [] then [] else PiecesText(pieces[..|pieces| - 1]) + PieceText(pieces[|pieces| - 1])
  }

  predicate IsRemoteUrl(path: string) {
    StartsWith(path, "http://") || StartsWith(path, "https://")
  }

  /** The file an image path names inside the temporary directory. */
  function AbsPath(tempDir: string, path: string): string {
    tempDir + "/" + path
  }

  /** An image reference to a local file. */
  predicate LocalRef(p: MdPiece) {
    p.ImageRef? && !IsRemoteUrl(p.path)
  }

  /** A local image reference whose file can be opened; `readable` holds the files `Image.open` reads. */
  predicate LocalReadable(tempDir: string, readable: set<string>, p: MdPiece) {
    LocalRef(p) && AbsPath(tempDir, p.path) in readable
  }

  /**
   * `upload_file` on the `n`-th upload of a run: every call draws a fresh
   * `uuid4` for its key, so the result depends on the call as well as on
   * the file.
   */
  type Upload = (string, nat) -> string

  /** The number of uploads the rewriting of `pieces` makes: one per readable local image. */
  function Uploads(tempDir: string, readable: set<string>, pieces: seq<MdPiece>): nat {
    if pieces == [] then 0
    else Uploads(tempDir, readable, pieces[..|pieces| - 1])
         + if LocalReadable(tempDir, readable, pieces[|pieces| - 1]) then 1 else 0
  }

  /**
   * What `replace_img` makes of one piece when `n` uploads came before it;
   * None when the image cannot be opened.
   */
  function Rewrite(tempDir: string, readable: set<string>, upload: Upload, n: nat, p: MdPiece): (r: Option<string>)
    ensures p.Plain? ==> r == Some(p.s)
    ensures p.ImageRef? && IsRemoteUrl(p.path) ==> r == Some(PieceText(p))
    ensures LocalReadable(tempDir, readable, p) ==>
      r == Some(p.prefix + upload(AbsPath(tempDir, p.path), n) + p.suffix)
    ensures r.None? <==> LocalRef(p) && !LocalReadable(tempDir, readable, p)
  {
    match p
    case Plain(s) => Some(s)
    case ImageRef(prefix, path, suffix) =>
      if IsRemoteUrl(path) then Some(prefix + path + suffix)
      else if AbsPath(tempDir, path) in readable then Some(prefix + upload(AbsPath(tempDir, path), n) + suffix)
      else None
  }

  /** The whole rewritten text; None when some image cannot be opened. */
  function RewriteAll(tempDir: string, readable: set<string>, upload: Upload, pieces: seq<MdPiece>): Option<string>
  {
    if pieces == [] then Some([])
    else
      var init := pieces[..|pieces| - 1];
      var last := Rewrite(tempDir, readable, upload, Uploads(tempDir, readable, init), pieces[|pieces| - 1]);
      var text := RewriteAll(tempDir, readable, upload, init);
      if text.Some? && last.Some? then Some(text.value + last.value) else None
  }

  /** Once a prefix fails to rewrite, the whole text does. */
  lemma {:induction false} RewriteFailureSticks(tempDir: string, readable: set<string>, upload: Upload,
                                                pieces: seq<MdPiece>, j: nat)
    requires j <= |pieces| && RewriteAll(tempDir, readable, upload, pieces[..j]) == None
    ensures RewriteAll(tempDir, readable, upload, pieces) == None
    decreases |pieces| - j
  {
    if j < |pieces| {
      assert pieces[..j + 1][..j] == pieces[..j];
      RewriteFailureSticks(tempDir, readable, upload, pieces, j + 1);
    } else {
      assert pieces[..j] == pieces;
    }
  }

  /** The text is rewritten exactly when every local image in it can be opened. */
  lemma {:induction false} RewriteAllSucceeds(tempDir: string, readable: set<string>, upload: Upload,
                                              pieces: seq<MdPiece>)
    ensures RewriteAll(tempDir, readable, upload, pieces).Some? <==>
      forall k :: 0 <= k < |pieces| && LocalRef(pieces[k]) ==> LocalReadable(tempDir, readable, pieces[k])
  {
    if pieces != [] {
      var init := pieces[..|pieces| - 1];
      RewriteAllSucceeds(tempDir, readable, upload, init);
      assert forall k :: 0 <= k < |init| ==> init[k] == pieces[k];
    }
  }

  /** The images map after the given pieces were rewritten, starting from `m`: URL to file. */
  function MapAfter(tempDir: string, readable: set<string>, upload: Upload,
                    pieces: seq<MdPiece>, m: map<string, string>): map<string, string>
  {
    if pieces == [] then m
    else
      var init := pieces[..|pieces| - 1];
      var m' := MapAfter(tempDir, readable, upload, init, m);
      var p := pieces[|pieces| - 1];
      if LocalReadable(tempDir, readable, p)
      then m'[upload(AbsPath(tempDir, p.path), Uploads(tempDir, readable, init)) := AbsPath(tempDir, p.path)]
      else m'
  }

  /** A text whose images are all remote comes back unchanged, and the map gains nothing. */
  lemma {:induction false} RemoteOnlyUnchanged(tempDir: string, readable: set<string>, upload: Upload,
                                               pieces: seq<MdPiece>)
    requires forall k :: 0 <= k < |pieces| ==> !LocalRef(pieces[k])
    ensures RewriteAll(tempDir, readable, upload, pieces) == Some(PiecesText(pieces))
    ensures forall m: map<string, string> :: MapAfter(tempDir, readable, upload, pieces, m) == m
  {
    if pieces != [] {
      RemoteOnlyUnchanged(tempDir, readable, upload, pieces[..|pieces| - 1]);
    }
  }

  /**
   * Every entry of the map is an uploaded local image, keyed by the URL of
   * its upload, and every readable one has its entry.
   */
  lemma {:induction false} MapEntries(tempDir: string, readable: set<string>, upload: Upload,
                                      pieces: seq<MdPiece>)
    ensures forall url :: url in MapAfter(tempDir, readable, upload, pieces, map[]) ==>
      exists k :: (0 <= k < |pieces| && LocalReadable(tempDir, readable, pieces[k])
        && MapAfter(tempDir, readable, upload, pieces, map[])[url] == AbsPath(tempDir, pieces[k].path)
        && upload(AbsPath(tempDir, pieces[k].path), Uploads(tempDir, readable, pieces[..k])) == url)
    ensures forall k :: 0 <= k < |pieces| && LocalReadable(tempDir, readable, pieces[k]) ==>
      upload(AbsPath(tempDir, pieces[k].path), Uploads(tempDir, readable, pieces[..k]))
        in MapAfter(tempDir, readable, upload, pieces, map[])
  {
    if pieces != [] {
      var init := pieces[..|pieces| - 1];
      MapEntries(tempDir, readable, upload, init);
      var m := MapAfter(tempDir, readable, upload, pieces, map[]);
      var m0 := MapAfter(tempDir, readable, upload, init, map[]);
      var p := pieces[|pieces| - 1];
      var n := Uploads(tempDir, readable, init);
      assert pieces[..|pieces| - 1] == init;
      forall url | url in m
        ensures exists k :: (0 <= k < |pieces| && LocalReadable(tempDir, readable, pieces[k])
          && m[url] == AbsPath(tempDir, pieces[k].path)
          && upload(AbsPath(tempDir, pieces[k].path), Uploads(tempDir, readable, pieces[..k])) == url)
      {
        if LocalReadable(tempDir, readable, p) && url == upload(AbsPath(tempDir, p.path), n) {
          assert m[url] == AbsPath(tempDir, pieces[|pieces| - 1].path);
        } else {
          assert url in m0 && m[url] == m0[url];
          var k :| 0 <= k < |init| && LocalReadable(tempDir, readable, init[k]) && m0[url] == AbsPath(tempDir, init[k].path)
                   && upload(AbsPath(tempDir, init[k].path), Uploads(tempDir, readable, init[..k])) == url;
          assert pieces[k] == init[k] && pieces[..k] == init[..k];
        }
      }
      forall k | 0 <= k < |pieces| && LocalReadable(tempDir, readable, pieces[k])
        ensures upload(AbsPath(tempDir, pieces[k].path), Uploads(tempDir, readable, pieces[..k])) in m
      {
        if k < |init| {
          assert pieces[k] == init[k] && pieces[..k] == init[..k];
        }
      }
    }
  }

  /** Every key of the map comes from one of the first `Uploads` calls. */
  lemma {:induction false} MapKeysFromCalls(tempDir: string, readable: set<string>, upload: Upload,
                                            pieces: seq<MdPiece>)
    ensures forall url :: url in MapAfter(tempDir, readable, upload, pieces, map[]) ==>
      exists a: string, j: nat :: j < Uploads(tempDir, readable, pieces) && url == upload(a, j)
  {
    if pieces != [] {
      MapKeysFromCalls(tempDir, readable, upload, pieces[..|pieces| - 1]);
    }
  }

  /**
   * When distinct calls give distinct URLs, as fresh `uuid4` keys do, the
   * map has one entry per readable local reference: a file referenced twice
   * is uploaded twice and has two entries.
   */
  lemma {:induction false} OneEntryPerUpload(tempDir: string, readable: set<string>, upload: Upload,
                                             pieces: seq<MdPiece>)
    requires forall a: string, b: string, i: nat, j: nat :: upload(a, i) == upload(b, j) ==> i == j
    ensures |MapAfter(tempDir, readable, upload, pieces, map[]).Keys| == Uploads(tempDir, readable, pieces)
  {
    if pieces != [] {
      var init := pieces[..|pieces| - 1];
      var p := pieces[|pieces| - 1];
      OneEntryPerUpload(tempDir, readable, upload, init);
      if LocalReadable(tempDir, readable, p) {
        var m0 := MapAfter(tempDir, readable, upload, init, map[]);
        var url := upload(AbsPath(tempDir, p.path), Uploads(tempDir, readable, init));
        MapKeysFromCalls(tempDir, readable, upload, init);
        assert url !in m0;
        assert m0[url := AbsPath(tempDir, p.path)].Keys == m0.Keys + {url};
      }
    }
  }

  /**
   * The image-reference rewriter `replace_img` and the `images_map` it fills,
   * keyed by uploaded URL; an image is named by the file it was opened from.
   * `uploads` counts the calls to `upload_file` so far.
   */
  class ImageRewriter {
    const tempDir: string
    const readable: set<string>
    const upload: Upload
    var imagesMap: map<string, string>
    var uploads: nat

    constructor (tempDir: string, readable: set<string>, upload: Upload)
      ensures this.tempDir == tempDir && this.readable == readable && this.upload == upload
      ensures imagesMap == map[] && uploads == 0
    {
      this.tempDir := tempDir;
      this.readable := readable;
      this.upload := upload;
      imagesMap := map[];
      uploads := 0;
    }

    /**
     * `replace_img` on one match: a remote URL is returned as matched; any
     * other path is opened (a missing file is only warned about, so opening
     * it fails), uploaded, recorded in the map and spliced between the
     * untouched prefix and suffix.
     */
    method ReplaceImg(prefix: string, path: string, suffix: string) returns (r: Option<string>)
      modifies this
      ensures r == Rewrite(tempDir, readable, upload, old(uploads), ImageRef(prefix, path, suffix))
      ensures LocalReadable(tempDir, readable, ImageRef(prefix, path, suffix)) ==>
        && uploads == old(uploads) + 1
        && imagesMap == old(imagesMap)[upload(AbsPath(tempDir, path), old(uploads)) := AbsPath(tempDir, path)]
      ensures !LocalReadable(tempDir, readable, ImageRef(prefix, path, suffix)) ==>
        uploads == old(uploads) && imagesMap == old(imagesMap)
    {
      if IsRemoteUrl(path) {
        return Some(prefix + path + suffix);
      }
      var absPath := tempDir + "/" + path;
      if absPath !in readable {
        return None;
      }
      var imageUrl := upload(absPath, uploads);
      uploads := uploads + 1;
      imagesMap := imagesMap[imageUrl := absPath];
      return Some(prefix + imageUrl + suffix);
    }

    /** `re.sub(img_pattern, replace_img, md_content)`: the pieces in order; an open failure aborts. */
    method Substitute(pieces: seq<MdPiece>) returns (r: Option<string>)
      requires uploads == 0
      modifies this
      ensures r == RewriteAll(tempDir, readable, upload, pieces)
      ensures r.Some? ==> imagesMap == MapAfter(tempDir, readable, upload, pieces, old(imagesMap))
    {
      var text := "";
      var i := 0;
      while i < |pieces|
        invariant 0 <= i <= |pieces|
        invariant RewriteAll(tempDir, readable, upload, pieces[..i]) == Some(text)
        invariant imagesMap == MapAfter(tempDir, readable, upload, pieces[..i], old(imagesMap))
        invariant uploads == Uploads(tempDir, readable, pieces[..i])
      {
        var p := pieces[i];
        assert pieces[..i + 1][..i] == pieces[..i] && pieces[..i + 1][i] == p;
        var piece: Option<string>;
        if p.Plain? {
          piece := Some(p.s);
        } else {
          piece := ReplaceImg(p.prefix, p.path, p.suffix);
        }
        if piece.None? {
          RewriteFailureSticks(tempDir, readable, upload, pieces, i + 1);
          return None;
        }
        text := text + piece.value;
        i := i + 1;
      }
      assert pieces[..i] == pieces;
      return Some(text);
    }
  }

  /** What the MinerU service returned: the Markdown, cut into pieces, and the images by name. */
  datatype MineruReply = MineruReply(md: seq<MdPiece>, images: seq<(string, string)>)

  /** Every image string, after the data-URI strip, is accepted by `base64.b64decode`. */
  predicate AllDecode(images: seq<(string, string)>, decodes: string -> bool) {
    forall k :: 0 <= k < |images| ==>
      StripDataUri(images[k].1).Some? && decodes(StripDataUri(images[k].1).value)
  }

  /** The files written for the images of the first `n` entries: `<tempDir>/images/<name>`. */
  function WrittenFiles(tempDir: string, images: seq<(string, string)>, n: nat): set<string>
    requires n <= |images|
  {
    set k | 0 <= k < n :: tempDir + "/images/" + images[k].0
  }

  /** The written files that `Image.open` can read. */
  function Openable(written: set<string>, opens: string -> bool): set<string> {
    set f | f in written && opens(f)
  }

  /**
   * The value of the remote branch: None when the reply is missing or some
   * image does not decode; otherwise the rewritten Markdown with its images
   * map, or None when some local image cannot be opened.
   */
  function RemoteValue(reply: Option<MineruReply>, tempDir: string, decodes: string -> bool,
                       opens: string -> bool, upload: Upload): Chunker.ParsedValue
  {
    if reply.None? || !AllDecode(reply.value.images, decodes) then Chunker.NoValue
    else
      var readable := Openable(WrittenFiles(tempDir, reply.value.images, |reply.value.images|), opens);
      var text := RewriteAll(tempDir, readable, upload, reply.value.md);
      if text.None? then Chunker.NoValue
      else Chunker.Pair(Chunker.Text(text.value), MapAfter(tempDir, readable, upload, reply.value.md, map[]))
  }

  /** A reply whose images all decode and whose references are all remote gives its Markdown unchanged and an empty map. */
  lemma RemoteOnlyReply(reply: MineruReply, tempDir: string, decodes: string -> bool,
                        opens: string -> bool, upload: Upload)
    requires AllDecode(reply.images, decodes)
    requires forall k :: 0 <= k < |reply.md| ==> !LocalRef(reply.md[k])
    ensures RemoteValue(Some(reply), tempDir, decodes, opens, upload)
      == Chunker.Pair(Chunker.Text(PiecesText(reply.md)), map[])
  {
    var readable := Openable(WrittenFiles(tempDir, reply.images, |reply.images|), opens);
    RemoteOnlyUnchanged(tempDir, readable, upload, reply.md);
  }

  /** The remote branch succeeds exactly when the reply came, every image decodes and every local image opens. */
  lemma RemoteSucceeds(reply: Option<MineruReply>, tempDir: string, decodes: string -> bool,
                       opens: string -> bool, upload: Upload)
    ensures RemoteValue(reply, tempDir, decodes, opens, upload).Pair? <==>
      reply.Some? && AllDecode(reply.value.images, decodes)
      && forall k :: 0 <= k < |reply.value.md| && LocalRef(reply.value.md[k]) ==>
           LocalReadable(tempDir, Openable(WrittenFiles(tempDir, reply.value.images, |reply.value.images|), opens), reply.value.md[k])
  {
    if reply.Some? {
      var readable := Openable(WrittenFiles(tempDir, reply.value.images, |reply.value.images|), opens);
      RewriteAllSucceeds(tempDir, readable, upload, reply.value.md);
    }
  }

  /**
   * The remote branch of `parse_into_text`. `reply` is None when the request,
   * the status check or the JSON lookups raised; `decodes` says which strings
   * `base64.b64decode` accepts and `opens` which written files `Image.open`
   * can read; the files written are `<tempDir>/images/<name>`. Any exception
   * is logged and the method falls through, returning None.
   */
  method ParseRemote(reply: Option<MineruReply>, tempDir: string, decodes: string -> bool,
                     opens: string -> bool, upload: Upload)
    returns (r: Chunker.ParsedValue, written: set<string>)
    ensures r == RemoteValue(reply, tempDir, decodes, opens, upload)
    ensures reply.Some? && AllDecode(reply.value.images, decodes) ==>
      written == WrittenFiles(tempDir, reply.value.images, |reply.value.images|)
  {
    written := {};
    if reply.None? {
      return Chunker.NoValue, written;
    }
    var images := reply.value.images;
    var i := 0;
    while i < |images|
      invariant 0 <= i <= |images|
      invariant forall k :: 0 <= k < i ==> StripDataUri(images[k].1).Some? && decodes(StripDataUri(images[k].1).value)
      invariant written == WrittenFiles(tempDir, images, i)
    {
      var b64 := StripDataUri(images[i].1);
      if b64.None? || !decodes(b64.value) {
        return Chunker.NoValue, written;
      }
      written := written + {tempDir + "/images/" + images[i].0};
      i := i + 1;
      assert WrittenFiles(tempDir, images, i) == WrittenFiles(tempDir, images, i - 1) + {tempDir + "/images/" + images[i - 1].0};
    }
    var rewriter := new ImageRewriter(tempDir, Openable(written, opens), upload);
    var text := rewriter.Substitute(reply.value.md);
    if text.None? {
      return Chunker.NoValue, written;
    }
    return Chunker.Pair(Chunker.Text(text.value), rewriter.imagesMap), written;
  }

  /**
   * `parse_into_text`: the remote service when its health probe answered
   * 200, else the local pdfplumber path. There is no local fallback when the
   * remote path fails.
   */
  method ParseIntoText(healthy: bool, reply: Option<MineruReply>, tempDir: string, decodes: string -> bool,
                       opens: string -> bool, upload: Upload, pages: Option<seq<PdfPage>>)
    returns (r: Chunker.ParsedValue)
    ensures !healthy ==>
      && r.Text?
      && (pages.None? ==> r.s == "")
      && (pages.Some? ==> r.s == Join(PageBreak, PageTexts(pages.value)))
    ensures healthy ==> r == RemoteValue(reply, tempDir, decodes, opens, upload)
  {
    if healthy {
      var written;
      r, written := ParseRemote(reply, tempDir, decodes, opens, upload);
    } else {
      var text := ParseLocal(pages);
      r := Chunker.Text(text);
    }
  }
}
