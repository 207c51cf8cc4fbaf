/**
 * The Word-document reader: the content sequence of one page, the HTML of a
 * table, the merging of per-page results (image upload, text rebuilding,
 * ordering by page) and the text and image map `DocxParser.parse_into_text`
 * hands back, with its fallback to the simple paragraph-and-table reader.
 * python-docx, PIL and the worker processes are outside the model: a
 * paragraph is its text and the picture extracted from it, if any.
 */
module DocxParser {
  import opened Wrappers
  import opened PyStr
  import Chunker

  // ---------------------------------------------------------------------
  // The content sequence of a page (`_extract_page_content_in_process`)
  // ---------------------------------------------------------------------

  /** An image `_extract_image_in_process` produced (none for a missing, unreadable or small picture). */
  datatype Picture = Picture(id: nat)

  /** A paragraph of the document: its text and the picture extracted from it. */
  datatype DocParagraph = DocParagraph(text: string, picture: Option<Picture>)

  /** One entry of a page's content sequence. */
  datatype Piece = TextPiece(s: string) | PicturePiece(pic: Picture)

  /** The text a paragraph contributes: stripped, ideographic spaces made plain, stripped again. */
  function CleanText(text: string): string {
    Strip(ReplaceChar(Strip(text), '　', " "))
  }

  /** What one paragraph adds before text is merged: its line of text, then its picture. */
  function ParagraphPieces(p: DocParagraph, multimodal: bool): seq<Piece> {
    (if Strip(p.text) != [] then [TextPiece(CleanText(p.text) + "\n")] else [])
    + (if multimodal && p.picture.Some? then [PicturePiece(p.picture.value)] else [])
  }

  /** The pieces of the listed paragraphs, in order; an index past the document adds nothing. */
  function PagePieces(paras: seq<DocParagraph>, indices: seq<nat>, multimodal: bool): seq<Piece> {
    if indices == [] then []
    else
      var idx := indices[|indices| - 1];
      PagePieces(paras, indices[..|indices| - 1], multimodal)
      + (if idx < |paras| then ParagraphPieces(paras[idx], multimodal) else [])
  }

  /** The pieces with every run of adjacent text pieces fused into one. */
  function Merge(pieces: seq<Piece>): seq<Piece> {
    if pieces == [] then []
    else
      var m := Merge(pieces[..|pieces| - 1]);
      var last := pieces[|pieces| - 1];
      if last.TextPiece? && m != [] && m[|m| - 1].TextPiece? then
        m[..|m| - 1] + [TextPiece(m[|m| - 1].s + last.s)]
      else m + [last]
  }

  function TextsOf(pieces: seq<Piece>): seq<string> {
    if pieces == [] then []
    else
      var last := pieces[|pieces| - 1];
      TextsOf(pieces[..|pieces| - 1]) + (if last.TextPiece? then [last.s] else [])
  }

  function PicturesOf(pieces: seq<Piece>): seq<Picture> {
    if pieces == [] then []
    else
      var last := pieces[|pieces| - 1];
      PicturesOf(pieces[..|pieces| - 1]) + (if last.PicturePiece? then [last.pic] else [])
  }

  /** No two text pieces are adjacent. */
  predicate NoAdjacentText(pieces: seq<Piece>) {
    forall k :: 0 <= k < |pieces| - 1 ==> !(pieces[k].TextPiece? && pieces[k + 1].TextPiece?)
  }

  predicate NoEmptyText(pieces: seq<Piece>) {
    forall k :: 0 <= k < |pieces| ==> pieces[k].TextPiece? ==> pieces[k].s != []
  }

  lemma MergeAppend(pieces: seq<Piece>, x: Piece)
    ensures var m := Merge(pieces);
      Merge(pieces + [x]) ==
        if x.TextPiece? && m != [] && m[|m| - 1].TextPiece? then m[..|m| - 1] + [TextPiece(m[|m| - 1].s + x.s)]
        else m + [x]
  {
    assert (pieces + [x])[..|pieces|] == pieces;
  }

  lemma TextsOfSnoc(pieces: seq<Piece>, x: Piece)
    ensures TextsOf(pieces + [x]) == TextsOf(pieces) + (if x.TextPiece? then [x.s] else [])
  {
    assert (pieces + [x])[..|pieces|] == pieces;
  }

  lemma PicturesOfSnoc(pieces: seq<Piece>, x: Piece)
    ensures PicturesOf(pieces + [x]) == PicturesOf(pieces) + (if x.PicturePiece? then [x.pic] else [])
  {
    assert (pieces + [x])[..|pieces|] == pieces;
  }

  /** Merging leaves no two text pieces side by side. */
  lemma {:induction false} MergeNoAdjacent(pieces: seq<Piece>)
    ensures NoAdjacentText(Merge(pieces))
  {
    if pieces != [] {
      var init := pieces[..|pieces| - 1];
      var last := pieces[|pieces| - 1];
      assert pieces == init + [last];
      MergeNoAdjacent(init);
      MergeAppend(init, last);
    }
  }

  /** Merging keeps text pieces non-empty. */
  lemma {:induction false} MergeNoEmpty(pieces: seq<Piece>)
    requires NoEmptyText(pieces)
    ensures NoEmptyText(Merge(pieces))
  {
    if pieces != [] {
      var init := pieces[..|pieces| - 1];
      var last := pieces[|pieces| - 1];
      assert pieces == init + [last];
      MergeNoEmpty(init);
      MergeAppend(init, last);
    }
  }

  /** Merging loses no text: the texts concatenate to the same string. */
  lemma {:induction false} MergeTexts(pieces: seq<Piece>)
    ensures Concat(TextsOf(Merge(pieces))) == Concat(TextsOf(pieces))
  {
    if pieces != [] {
      var init := pieces[..|pieces| - 1];
      var last := pieces[|pieces| - 1];
      assert pieces == init + [last];
      MergeTexts(init);
      var m := Merge(init);
      MergeAppend(init, last);
      TextsOfSnoc(init, last);
      ConcatAppend(TextsOf(init), if last.TextPiece? then [last.s] else []);
      if last.TextPiece? && m != [] && m[|m| - 1].TextPiece? {
        var front := m[..|m| - 1];
        assert m == front + [m[|m| - 1]];
        TextsOfSnoc(front, m[|m| - 1]);
        TextsOfSnoc(front, TextPiece(m[|m| - 1].s + last.s));
        ConcatAppend(TextsOf(front), [m[|m| - 1].s]);
        ConcatAppend(TextsOf(front), [m[|m| - 1].s + last.s]);
      } else {
        TextsOfSnoc(m, last);
        ConcatAppend(TextsOf(m), if last.TextPiece? then [last.s] else []);
      }
    }
  }

  /** Merging keeps the pictures, in order. */
  lemma {:induction false} MergePictures(pieces: seq<Piece>)
    ensures PicturesOf(Merge(pieces)) == PicturesOf(pieces)
  {
    if pieces != [] {
      var init := pieces[..|pieces| - 1];
      var last := pieces[|pieces| - 1];
      assert pieces == init + [last];
      MergePictures(init);
      var m := Merge(init);
      MergeAppend(init, last);
      PicturesOfSnoc(init, last);
      if last.TextPiece? && m != [] && m[|m| - 1].TextPiece? {
        var front := m[..|m| - 1];
        assert m == front + [m[|m| - 1]];
        PicturesOfSnoc(front, m[|m| - 1]);
        PicturesOfSnoc(front, TextPiece(m[|m| - 1].s + last.s));
      } else {
        PicturesOfSnoc(m, last);
      }
    }
  }

  /** The raw pieces of a page never hold empty text. */
  lemma {:induction false} PagePiecesNonEmpty(paras: seq<DocParagraph>, indices: seq<nat>, multimodal: bool)
    ensures NoEmptyText(PagePieces(paras, indices, multimodal))
  {
    if indices != [] {
      PagePiecesNonEmpty(paras, indices[..|indices| - 1], multimodal);
    }
  }

  /** The text still being accumulated, as the piece it will become. */
  function Pending(current: string): seq<Piece> {
    if current == [] then [] else [TextPiece(current)]
  }

  /** The state of the paragraph loop: flushed pieces plus pending text are the merged pieces so far. */
  predicate PageState(content: seq<Piece>, current: string, pieces: seq<Piece>) {
    && content + Pending(current) == Merge(pieces)
    && (content == [] || content[|content| - 1].PicturePiece?)
  }

  /** A line of text joins the pending text. */
  lemma PendingText(content: seq<Piece>, current: string, pieces: seq<Piece>, t: string)
    requires PageState(content, current, pieces) && t != []
    ensures PageState(content, current + t, pieces + [TextPiece(t)])
  {
    MergeAppend(pieces, TextPiece(t));
    var m := Merge(pieces);
    if current != [] {
      assert m == content + [TextPiece(current)];
      assert m[..|m| - 1] == content;
      assert Merge(pieces + [TextPiece(t)]) == content + [TextPiece(current + t)];
    } else {
      assert m == content;
      assert current + t == t;
    }
  }

  /** A picture flushes the pending text and follows it. */
  lemma PendingPicture(content: seq<Piece>, current: string, pieces: seq<Piece>, pic: Picture)
    requires PageState(content, current, pieces)
    ensures PageState(content + Pending(current) + [PicturePiece(pic)], [], pieces + [PicturePiece(pic)])
  {
    MergeAppend(pieces, PicturePiece(pic));
  }

  /** The text of a paragraph, stripped and cleaned, joins the pending text. */
  method AddText(content: seq<Piece>, current: string, text: string, ghost pieces: seq<Piece>)
    returns (current': string, ghost textPart: seq<Piece>)
    requires PageState(content, current, pieces)
    ensures textPart == if Strip(text) != [] then [TextPiece(CleanText(text) + "\n")] else []
    ensures PageState(content, current', pieces + textPart)
  {
    current' := current;
    textPart := [];
    var stripped := Strip(text);
    if stripped != "" {
      var cleaned := Strip(ReplaceChar(stripped, '　', " "));
      PendingText(content, current', pieces, cleaned + "\n");
      current' := current' + (cleaned + "\n");
      textPart := [TextPiece(cleaned + "\n")];
    } else {
      assert pieces + textPart == pieces;
    }
  }

  /** A paragraph's pieces: its text part, then its picture when pictures are taken. */
  lemma ParagraphSplit(para: DocParagraph, multimodal: bool, pieces: seq<Piece>, textPart: seq<Piece>)
    requires textPart == if Strip(para.text) != [] then [TextPiece(CleanText(para.text) + "\n")] else []
    ensures multimodal && para.picture.Some? ==>
      pieces + ParagraphPieces(para, multimodal) == pieces + textPart + [PicturePiece(para.picture.value)]
    ensures !(multimodal && para.picture.Some?) ==> pieces + ParagraphPieces(para, multimodal) == pieces + textPart
  {
    if !(multimodal && para.picture.Some?) {
      assert ParagraphPieces(para, multimodal) == textPart;
    }
  }

  /** One paragraph of the loop: its text joins the pending text; its picture flushes the text first. */
  method AddParagraph(content: seq<Piece>, current: string, para: DocParagraph, multimodal: bool,
                      ghost pieces: seq<Piece>)
    returns (content': seq<Piece>, current': string)
    requires PageState(content, current, pieces)
    ensures PageState(content', current', pieces + ParagraphPieces(para, multimodal))
  {
    content' := content;
    ghost var textPart;
    current', textPart := AddText(content, current, para.text, pieces);
    ParagraphSplit(para, multimodal, pieces, textPart);
    if multimodal {
      var image := para.picture;
      if image.Some? {
        PendingPicture(content', current', pieces + textPart, image.value);
        if current' != "" {
          content' := content' + [TextPiece(current')];
          current' := "";
        } else {
          assert content' + Pending(current') == content';
        }
        content' := content' + [PicturePiece(image.value)];
      }
    }
  }

  /** The pieces of the first `i + 1` listed paragraphs. */
  lemma PagePiecesStep(paras: seq<DocParagraph>, indices: seq<nat>, i: nat, multimodal: bool)
    requires i < |indices|
    ensures PagePieces(paras, indices[..i + 1], multimodal) ==
      if indices[i] < |paras| then PagePieces(paras, indices[..i], multimodal) + ParagraphPieces(paras[indices[i]], multimodal)
      else PagePieces(paras, indices[..i], multimodal)
  {
    assert indices[..i + 1][..i] == indices[..i];
    if indices[i] >= |paras| {
      assert PagePieces(paras, indices[..i], multimodal) + [] == PagePieces(paras, indices[..i], multimodal);
    }
  }

  /**
   * `_extract_page_content_in_process`: the content sequence is the page's
   * pieces merged (text flushed before each picture and at the end); the
   * pictures are its picture pieces and the combined text is the
   * "\n\n"-join of its text pieces.
   */
  method ExtractPageContent(paras: seq<DocParagraph>, indices: seq<nat>, multimodal: bool)
    returns (combined: string, pictures: seq<Picture>, content: seq<Piece>)
    ensures content == Merge(PagePieces(paras, indices, multimodal))
    ensures pictures == PicturesOf(content)
    ensures combined == Join("\n\n", TextsOf(content))
  {
    content := [];
    var current := "";
    var i := 0;
    while i < |indices|
      invariant 0 <= i <= |indices|
      invariant PageState(content, current, PagePieces(paras, indices[..i], multimodal))
    {
      var idx := indices[i];
      PagePiecesStep(paras, indices, i, multimodal);
      if idx < |paras| {
        content, current := AddParagraph(content, current, paras[idx], multimodal,
                                         PagePieces(paras, indices[..i], multimodal));
      }
      i := i + 1;
    }
    assert indices[..i] == indices;
    if current != "" {
      content := content + [TextPiece(current)];
    } else {
      assert content + Pending(current) == content;
    }
    var textParts;
    textParts, pictures := SplitContent(content);
    combined := if textParts != [] then Join("\n\n", textParts) else "";
  }

  /** The text pieces and the picture pieces of a content sequence, each in order. */
  method SplitContent(content: seq<Piece>) returns (textParts: seq<string>, pictures: seq<Picture>)
    ensures textParts == TextsOf(content) && pictures == PicturesOf(content)
  {
    textParts, pictures := [], [];
    var k := 0;
    while k < |content|
      invariant 0 <= k <= |content|
      invariant textParts == TextsOf(content[..k]) && pictures == PicturesOf(content[..k])
    {
      assert content[..k + 1][..k] == content[..k];
      if content[k].TextPiece? {
        textParts := textParts + [content[k].s];
      } else {
        pictures := pictures + [content[k].pic];
      }
      k := k + 1;
    }
    assert content[..k] == content;
  }

  /**
   * The page's content sequence has no empty and no adjacent text pieces,
   * and its texts and pictures are exactly those of its paragraphs, in order.
   */
  lemma PageContentShape(paras: seq<DocParagraph>, indices: seq<nat>, multimodal: bool)
    ensures var content := Merge(PagePieces(paras, indices, multimodal));
      && NoAdjacentText(content) && NoEmptyText(content)
      && Concat(TextsOf(content)) == Concat(TextsOf(PagePieces(paras, indices, multimodal)))
      && PicturesOf(content) == PicturesOf(PagePieces(paras, indices, multimodal))
  {
    PagePiecesNonEmpty(paras, indices, multimodal);
    MergeNoAdjacent(PagePieces(paras, indices, multimodal));
    MergeNoEmpty(PagePieces(paras, indices, multimodal));
    MergeTexts(PagePieces(paras, indices, multimodal));
    MergePictures(PagePieces(paras, indices, multimodal));
  }

  /** Without multimodal processing a page has at most one piece: all its text. */
  lemma {:induction false} TextOnlyPage(paras: seq<DocParagraph>, indices: seq<nat>)
    ensures PicturesOf(PagePieces(paras, indices, false)) == []
    ensures |Merge(PagePieces(paras, indices, false))| <= 1
  {
    var ps := PagePieces(paras, indices, false);
    PagePiecesNonEmpty(paras, indices, false);
    TextOnlyPieces(paras, indices);
    MergePictures(ps);
    TextOnlyMerge(ps);
  }

  lemma {:induction false} TextOnlyPieces(paras: seq<DocParagraph>, indices: seq<nat>)
    ensures forall k :: 0 <= k < |PagePieces(paras, indices, false)| ==> PagePieces(paras, indices, false)[k].TextPiece?
  {
    if indices != [] {
      TextOnlyPieces(paras, indices[..|indices| - 1]);
    }
  }

  lemma {:induction false} TextOnlyMerge(ps: seq<Piece>)
    requires forall k :: 0 <= k < |ps| ==> ps[k].TextPiece?
    ensures |Merge(ps)| <= 1 && (forall k :: 0 <= k < |Merge(ps)| ==> Merge(ps)[k].TextPiece?)
    ensures PicturesOf(ps) == []
  {
    if ps != [] {
      var init := ps[..|ps| - 1];
      TextOnlyMerge(init);
      MergeAppend(init, ps[|ps| - 1]);
      assert ps == init + [ps[|ps| - 1]];
    }
  }

  // ---------------------------------------------------------------------
  // Tables as HTML (`_convert_table_to_html`)
  // ---------------------------------------------------------------------

  /** A `<td>`: its text and its column span. */
  datatype Cell = Cell(text: string, span: nat)

  /** How many of `cells[lo..hi]` have text `c`. */
  function CountSame(cells: seq<string>, c: string, lo: nat, hi: nat): nat
    requires lo <= hi <= |cells|
    decreases hi - lo
  {
    if lo == hi then 0 else CountSame(cells, c, lo, hi - 1) + (if cells[hi - 1] == c then 1 else 0)
  }

  /** The last index in `[lo, hi)` whose cell has text `c`, or `dflt` when there is none. */
  function LastSame(cells: seq<string>, c: string, lo: nat, hi: nat, dflt: nat): (r: nat)
    requires lo <= hi <= |cells|
    ensures r == dflt || (lo <= r < hi && cells[r] == c)
    ensures CountSame(cells, c, lo, hi) == 0 <==> r == dflt && (dflt < lo || dflt >= hi || cells[dflt] != c)
    decreases hi - lo
  {
    if lo == hi then dflt
    else if cells[hi - 1] == c then hi - 1
    else LastSame(cells, c, lo, hi - 1, dflt)
  }

  /**
   * The cells of a row as `_convert_table_to_html` renders them from index
   * `i`: a cell's span counts itself and every later cell with the same
   * text, and rendering resumes after the last such cell.
   */
  function SpannedCells(cells: seq<string>, i: nat): seq<Cell>
    requires i <= |cells|
    decreases |cells| - i
  {
    if i == |cells| then []
    else
      var c := cells[i];
      var next := LastSame(cells, c, i + 1, |cells|, i) + 1;
      [Cell(c, 1 + CountSame(cells, c, i + 1, |cells|))] + SpannedCells(cells, next)
  }

  function CellHtml(cell: Cell): string {
    if cell.span == 1 then "<td>" + cell.text + "</td>"
    else "<td colspan='" + NatToStr(cell.span) + "'>" + cell.text + "</td>"
  }

  function CellsHtml(cells: seq<Cell>): string {
    if cells == [] then "" else CellsHtml(cells[..|cells| - 1]) + CellHtml(cells[|cells| - 1])
  }

  function RowHtml(cells: seq<string>): string {
    "<tr>" + CellsHtml(SpannedCells(cells, 0)) + "</tr>"
  }

  function RowsHtml(rows: seq<seq<string>>): string {
    if rows == [] then "" else RowsHtml(rows[..|rows| - 1]) + RowHtml(rows[|rows| - 1])
  }

  function TableHtml(rows: seq<seq<string>>): string {
    "<table>" + RowsHtml(rows) + "</table>"
  }

  /** The inner `for j` loop: the span of the cell at `i` and the index rendering resumes from, less one. */
  method SpanAt(cells: seq<string>, i0: nat) returns (span: nat, i: nat)
    requires i0 < |cells|
    ensures span == 1 + CountSame(cells, cells[i0], i0 + 1, |cells|)
    ensures i == LastSame(cells, cells[i0], i0 + 1, |cells|, i0)
  {
    span := 1;
    i := i0;
    var c := cells[i0];
    var j := i0 + 1;
    while j < |cells|
      invariant i0 + 1 <= j <= |cells|
      invariant span == 1 + CountSame(cells, c, i0 + 1, j)
      invariant i == LastSame(cells, c, i0 + 1, j, i0)
    {
      if c == cells[j] {
        span := span + 1;
        i := j;
      }
      j := j + 1;
    }
  }

  lemma SpannedStep(cells: seq<string>, done: seq<Cell>, i0: nat, cell: Cell, i: nat)
    requires i0 < |cells| && SpannedCells(cells, 0) == done + SpannedCells(cells, i0)
    requires cell == Cell(cells[i0], 1 + CountSame(cells, cells[i0], i0 + 1, |cells|))
    requires i == LastSame(cells, cells[i0], i0 + 1, |cells|, i0) + 1
    ensures i0 < i <= |cells|
    ensures SpannedCells(cells, 0) == (done + [cell]) + SpannedCells(cells, i)
    ensures CellsHtml(done + [cell]) == CellsHtml(done) + CellHtml(cell)
  {
    assert SpannedCells(cells, i0) == [cell] + SpannedCells(cells, i);
    AppendAssoc(done, [cell], SpannedCells(cells, i));
    assert (done + [cell])[..|done|] == done;
  }

  /** The `<td>`s of one row, built by the `while i` loop. */
  method RowCellsHtml(cells: seq<string>) returns (html: string)
    ensures html == CellsHtml(SpannedCells(cells, 0))
  {
    html := "";
    ghost var done: seq<Cell> := [];
    var i := 0;
    while i < |cells|
      invariant 0 <= i <= |cells|
      invariant SpannedCells(cells, 0) == done + SpannedCells(cells, i)
      invariant html == CellsHtml(done)
      decreases |cells| - i
    {
      var c := cells[i];
      var i0 := i;
      var span;
      span, i := SpanAt(cells, i);
      i := i + 1;
      var cell := Cell(c, span);
      SpannedStep(cells, done, i0, cell, i);
      done := done + [cell];
      html := html + CellHtml(cell);
    }
    assert done + [] == done;
  }

  /** `_convert_table_to_html`: `<table>`, one `<tr>...</tr>` per row, `</table>`. */
  method ConvertTableToHtml(rows: seq<seq<string>>) returns (html: string)
    ensures html == TableHtml(rows)
  {
    html := "<table>";
    var r := 0;
    while r < |rows|
      invariant 0 <= r <= |rows|
      invariant html == "<table>" + RowsHtml(rows[..r])
    {
      assert rows[..r + 1][..r] == rows[..r];
      var tds := RowCellsHtml(rows[r]);
      AppendAssoc("<table>", RowsHtml(rows[..r]), RowHtml(rows[r]));
      html := html + ("<tr>" + tds + "</tr>");
      r := r + 1;
    }
    assert rows[..r] == rows;
    html := html + "</table>";
  }

  /** Each rendered cell consumes at least one cell of the row, so a row never has more `<td>`s than cells. */
  lemma {:induction false} SpannedCellsBound(cells: seq<string>, i: nat)
    requires i <= |cells|
    ensures |SpannedCells(cells, i)| <= |cells| - i
    decreases |cells| - i
  {
    if i < |cells| {
      SpannedCellsBound(cells, LastSame(cells, cells[i], i + 1, |cells|, i) + 1);
    }
  }

  /** All texts of the row differ from each other. */
  predicate Distinct(cells: seq<string>) {
    forall a, b :: 0 <= a < b < |cells| ==> cells[a] != cells[b]
  }

  lemma {:induction false} CountSameAbsent(cells: seq<string>, c: string, lo: nat, hi: nat)
    requires lo <= hi <= |cells|
    requires forall k :: lo <= k < hi ==> cells[k] != c
    ensures CountSame(cells, c, lo, hi) == 0
    decreases hi - lo
  {
    if lo < hi {
      CountSameAbsent(cells, c, lo, hi - 1);
    }
  }

  /** One cell without a span for each text of the row from `i` on. */
  function PlainCells(cells: seq<string>, i: nat): (r: seq<Cell>)
    requires i <= |cells|
    ensures |r| == |cells| - i && forall k :: 0 <= k < |r| ==> r[k] == Cell(cells[i + k], 1)
    decreases |cells| - i
  {
    if i == |cells| then [] else [Cell(cells[i], 1)] + PlainCells(cells, i + 1)
  }

  /** A row of distinct texts renders as one plain `<td>` per cell, in order. */
  lemma {:induction false} DistinctRowPlain(cells: seq<string>, i: nat)
    requires i <= |cells| && Distinct(cells)
    ensures SpannedCells(cells, i) == PlainCells(cells, i)
    decreases |cells| - i
  {
    if i < |cells| {
      forall k | i + 1 <= k < |cells| ensures cells[k] != cells[i] {
      }
      CountSameAbsent(cells, cells[i], i + 1, |cells|);
      DistinctRowPlain(cells, i + 1);
    }
  }

  /** As written, a cell between two equal cells is dropped: `["", "x", ""]` renders `"x"` nowhere. */
  lemma NonAdjacentSpanDropsCell()
    ensures SpannedCells(["", "x", ""], 0) == [Cell("", 2)]
    ensures Expand(SpannedCells(["", "x", ""], 0)) == ["", ""]
  {
    var cells := ["", "x", ""];
    assert CountSame(cells, "", 1, 3) == 1;
    assert LastSame(cells, "", 1, 3, 0) == 2;
    assert SpannedCells(cells, 3) == [];
    assert Expand([Cell("", 2)]) == seq(2, _ => "") + Expand([]);
    assert seq(2, _ => "") == ["", ""];
  }

  /** Where the run of cells equal to `cells[i]` that starts at `i` ends. */
  function RunEnd(cells: seq<string>, i: nat): (r: nat)
    requires i < |cells|
    ensures i < r <= |cells|
    ensures forall k :: i <= k < r ==> cells[k] == cells[i]
    ensures r == |cells| || cells[r] != cells[i]
    decreases |cells| - i
  {
    if i + 1 < |cells| && cells[i + 1] == cells[i] then RunEnd(cells, i + 1) else i + 1
  }

  /** The corrected rendering: only runs of adjacent equal cells are merged into one spanning cell. */
  function MergedCells(cells: seq<string>, i: nat): seq<Cell>
    requires i <= |cells|
    decreases |cells| - i
  {
    if i == |cells| then []
    else
      var next := RunEnd(cells, i);
      [Cell(cells[i], next - i)] + MergedCells(cells, next)
  }

  /** The cell texts a sequence of cells stands for: each text repeated over its span. */
  function Expand(cells: seq<Cell>): seq<string> {
    if cells == [] then [] else seq(cells[0].span, _ => cells[0].text) + Expand(cells[1..])
  }

  /** A run of equal cells `i..next` in front of cells that expand to the rest of the row. */
  lemma ExpandRun(cells: seq<string>, i: nat, next: nat, rest: seq<Cell>)
    requires i < next <= |cells| && forall k :: i <= k < next ==> cells[k] == cells[i]
    requires Expand(rest) == cells[next..]
    ensures Expand([Cell(cells[i], next - i)] + rest) == cells[i..]
  {
    assert ([Cell(cells[i], next - i)] + rest)[1..] == rest;
    assert seq(next - i, _ => cells[i]) == cells[i..next];
    assert cells[i..] == cells[i..next] + cells[next..];
  }

  /** The corrected rendering keeps every cell: expanding its spans gives the row back. */
  lemma {:induction false} MergedCellsExpand(cells: seq<string>, i: nat)
    requires i <= |cells|
    ensures Expand(MergedCells(cells, i)) == cells[i..]
    decreases |cells| - i
  {
    if i < |cells| {
      var next := RunEnd(cells, i);
      MergedCellsExpand(cells, next);
      ExpandRun(cells, i, next, MergedCells(cells, next));
    }
  }

  /** The corrected table: every row's cells merged only over adjacent runs. */
  function MergedRowsHtml(rows: seq<seq<string>>): string {
    if rows == [] then ""
    else MergedRowsHtml(rows[..|rows| - 1]) + "<tr>" + CellsHtml(MergedCells(rows[|rows| - 1], 0)) + "</tr>"
  }

  function MergedTableHtml(rows: seq<seq<string>>): (html: string)
    ensures html == "<table>" + MergedRowsHtml(rows) + "</table>"
  {
    "<table>" + MergedRowsHtml(rows) + "</table>"
  }


  // ---------------------------------------------------------------------
  // Merging the page results (`_process_multiprocess_results`)
  // ---------------------------------------------------------------------

  /**
   * `ImageData`: an image saved to `localPath`, which also names the image
   * itself; `url` is filled in once the image is uploaded.
   */
  class ImageData {
    const localPath: string
    var url: string

    constructor (localPath: string, url: string)
      ensures this.localPath == localPath && this.url == url
    {
      this.localPath := localPath;
      this.url := url;
    }
  }

  /** An entry of a line's content sequence: text, a saved image, or an image named by its path. */
  datatype LineItem = LineText(s: string) | LineImage(image: ImageData) | LinePath(path: string)

  /** `LineData`: the result of one page. */
  datatype LineData = LineData(text: string, images: seq<ImageData>, pageNum: int, content: seq<LineItem>)

  /** The images of all lines, in order. */
  function AllImages(lines: seq<LineData>): (r: seq<ImageData>)
    ensures forall im :: im in r ==> exists k :: 0 <= k < |lines| && im in lines[k].images
  {
    if lines == [] then [] else AllImages(lines[..|lines| - 1]) + lines[|lines| - 1].images
  }

  /** Some line carries images. */
  predicate HasImages(lines: seq<LineData>) {
    exists k :: 0 <= k < |lines| && lines[k].images != []
  }

  /** The page number of the last line that carries images, or `dflt`. */
  function LastImagePage(lines: seq<LineData>, dflt: int): int {
    if lines == [] then dflt
    else if lines[|lines| - 1].images != [] then lines[|lines| - 1].pageNum
    else LastImagePage(lines[..|lines| - 1], dflt)
  }

  /** The Markdown link of an uploaded image. */
  function ImageLink(url: string): string {
    "![](" + url + ")"
  }

  /** An image as it was before uploading: its path and its url. */
  datatype Shot = Shot(path: string, url: string)

  ghost function Shots(images: seq<ImageData>): (r: seq<Shot>)
    reads images
    ensures |r| == |images|
    ensures forall k :: 0 <= k < |r| ==> r[k] == Shot(images[k].localPath, images[k].url)
  {
    if images == [] then [] else Shots(images[..|images| - 1]) + [Shot(images[|images| - 1].localPath, images[|images| - 1].url)]
  }

  /**
   * One image of the upload loop: a path that is set, exists on disk and is
   * not yet linked gets the link of its url, uploading it first when it has
   * none; a failed upload (an empty url) links nothing.
   */
  function LinkStep(links: map<string, string>, shot: Shot, existing: set<string>, upload: string -> string): map<string, string> {
    if shot.path != "" && shot.path in existing && shot.path !in links then
      if shot.url == "" then
        var u := upload(shot.path);
        if u != "" then links[shot.path := ImageLink(u)] else links
      else links[shot.path := ImageLink(shot.url)]
    else links
  }

  /** `image_url_map` after the upload loop has seen `shots`. */
  function LinksAfter(shots: seq<Shot>, existing: set<string>, upload: string -> string): map<string, string> {
    if shots == [] then map[] else LinkStep(LinksAfter(shots[..|shots| - 1], existing, upload), shots[|shots| - 1], existing, upload)
  }

  /** Every link names an existing, non-empty path. */
  lemma {:induction false} LinksAfterKeys(shots: seq<Shot>, existing: set<string>, upload: string -> string)
    ensures forall p :: p in LinksAfter(shots, existing, upload) ==> p != "" && p in existing
  {
    if shots != [] {
      LinksAfterKeys(shots[..|shots| - 1], existing, upload);
    }
  }

  /** The upload loop's links after one more image. */
  lemma LinksAfterStep(shots: seq<Shot>, i: nat, existing: set<string>, upload: string -> string)
    requires i < |shots|
    ensures LinksAfter(shots[..i + 1], existing, upload) == LinkStep(LinksAfter(shots[..i], existing, upload), shots[i], existing, upload)
  {
    assert shots[..i + 1][..i] == shots[..i];
  }

  /**
   * The url image `k` carries after the upload loop: the url the upload
   * returned exactly when the loop uploads it (its path is set, exists and
   * is not linked by an earlier image, it has no url, and the upload gave
   * one), else the url it had.
   */
  function NewUrl(shots: seq<Shot>, k: nat, existing: set<string>, upload: string -> string): string
    requires k < |shots|
  {
    var shot := shots[k];
    if shot.path != "" && shot.path in existing && shot.path !in LinksAfter(shots[..k], existing, upload)
       && shot.url == "" && upload(shot.path) != ""
    then upload(shot.path)
    else shot.url
  }

  /** The link map only grows as the loop goes on. */
  lemma {:induction false} LinksGrow(shots: seq<Shot>, j: nat, k: nat, existing: set<string>, upload: string -> string)
    requires j <= k <= |shots|
    ensures LinksAfter(shots[..j], existing, upload).Keys <= LinksAfter(shots[..k], existing, upload).Keys
    decreases k - j
  {
    if j < k {
      LinksAfterStep(shots, j, existing, upload);
      LinksGrow(shots, j + 1, k, existing, upload);
    }
  }

  /** An image that gets a new url is linked to it, and no later image with the same path is uploaded again. */
  lemma NewUrlOnce(shots: seq<Shot>, j: nat, k: nat, existing: set<string>, upload: string -> string)
    requires j < k < |shots| && shots[j].path == shots[k].path
    requires NewUrl(shots, j, existing, upload) != shots[j].url
    ensures LinksAfter(shots[..j + 1], existing, upload)[shots[j].path] == ImageLink(NewUrl(shots, j, existing, upload))
    ensures NewUrl(shots, k, existing, upload) == shots[k].url
  {
    LinksAfterStep(shots, j, existing, upload);
    LinksGrow(shots, j + 1, k, existing, upload);
  }

  /** The url of an image seen in the first `j` images is the same whether or not the loop goes on. */
  lemma NewUrlPrefix(shots: seq<Shot>, j: nat, k: nat, existing: set<string>, upload: string -> string)
    requires k < j <= |shots|
    ensures NewUrl(shots[..j], k, existing, upload) == NewUrl(shots, k, existing, upload)
  {
    assert shots[..j][..k] == shots[..k];
  }

  /** Every link is the link of the non-empty url some image with that path ends up with. */
  lemma {:induction false} LinksAfterWitness(shots: seq<Shot>, existing: set<string>, upload: string -> string)
    ensures forall p :: p in LinksAfter(shots, existing, upload) ==>
      exists k :: (0 <= k < |shots| && shots[k].path == p && NewUrl(shots, k, existing, upload) != ""
        && LinksAfter(shots, existing, upload)[p] == ImageLink(NewUrl(shots, k, existing, upload)))
  {
    if shots != [] {
      var n := |shots| - 1;
      var init := shots[..n];
      LinksAfterWitness(init, existing, upload);
      assert shots[..n] == init;
      var links := LinksAfter(init, existing, upload);
      forall p | p in LinksAfter(shots, existing, upload)
        ensures exists k :: (0 <= k < |shots| && shots[k].path == p && NewUrl(shots, k, existing, upload) != ""
          && LinksAfter(shots, existing, upload)[p] == ImageLink(NewUrl(shots, k, existing, upload)))
      {
        if p in links {
          var k :| 0 <= k < |init| && init[k].path == p && NewUrl(init, k, existing, upload) != ""
                   && links[p] == ImageLink(NewUrl(init, k, existing, upload));
          NewUrlPrefix(shots, n, k, existing, upload);
        } else {
          assert NewUrl(shots, n, existing, upload) != "";
        }
      }
    }
  }

  /** The images are distinct objects, as each `ImageData` is created afresh. */
  predicate DistinctImages(images: seq<ImageData>) {
    forall i, j :: 0 <= i < j < |images| ==> images[i] != images[j]
  }

  /**
   * One image of the upload loop, which `shot` recorded before the loop:
   * its url is still the recorded one unless its path is already linked.
   */
  method UploadOne(image: ImageData, links: map<string, string>, existing: set<string>, upload: string -> string,
                   ghost shot: Shot)
    returns (links': map<string, string>)
    modifies image
    requires shot.path == image.localPath && (image.url == shot.url || image.localPath in links)
    ensures links' == LinkStep(links, shot, existing, upload)
    ensures links.Keys <= links'.Keys
    ensures image.url == old(image.url) || (old(image.url) == "" && image.url == upload(image.localPath) && image.url != "")
    ensures image.url ==
      if image.localPath != "" && image.localPath in existing && image.localPath !in links
         && old(image.url) == "" && upload(image.localPath) != ""
      then upload(image.localPath) else old(image.url)
    ensures image.url != old(image.url) ==> image.localPath in links'
    ensures forall p :: p in links' ==>
      (p in links && links'[p] == links[p]) || (p == image.localPath && image.url != "" && links'[p] == ImageLink(image.url))
  {
    links' := links;
    if image.localPath != "" && image.localPath in existing && image.localPath !in links {
      if image.url == "" {
        var imageUrl := upload(image.localPath);
        if imageUrl != "" {
          image.url := imageUrl;
          links' := links[image.localPath := ImageLink(imageUrl)];
        }
      } else {
        links' := links[image.localPath := ImageLink(image.url)];
      }
    }
  }

  /**
   * The upload loop of `_process_multiprocess_results`. An image's url is
   * only ever set from empty to what the upload returned, and every link
   * recorded is the link of the url some image with that path now carries.
   */
  method UploadImages(images: seq<ImageData>, existing: set<string>, upload: string -> string)
    returns (links: map<string, string>)
    requires DistinctImages(images)
    modifies images
    ensures links == LinksAfter(old(Shots(images)), existing, upload)
    ensures forall k :: 0 <= k < |images| ==> images[k].url == NewUrl(old(Shots(images)), k, existing, upload)
    ensures forall im :: im in images ==>
      im.url == old(im.url) || (old(im.url) == "" && im.url == upload(im.localPath) && im.url != "")
    ensures forall p :: p in links ==>
      exists im :: im in images && im.localPath == p && im.url != "" && links[p] == ImageLink(im.url)
  {
    ghost var shots := Shots(images);
    links := map[];
    var i := 0;
    while i < |images|
      invariant 0 <= i <= |images|
      invariant links == LinksAfter(shots[..i], existing, upload)
      invariant forall k :: i <= k < |images| ==> images[k].url == shots[k].url
      invariant forall k :: 0 <= k < i ==> images[k].url == NewUrl(shots, k, existing, upload)
    {
      LinksAfterStep(shots, i, existing, upload);
      links := UploadOne(images[i], links, existing, upload, shots[i]);
      i := i + 1;
    }
    assert shots[..i] == shots;
    LinksAfterWitness(shots, existing, upload);
    forall p | p in links
      ensures exists im :: im in images && im.localPath == p && im.url != "" && links[p] == ImageLink(im.url)
    {
      var k :| 0 <= k < |shots| && shots[k].path == p && NewUrl(shots, k, existing, upload) != ""
               && links[p] == ImageLink(NewUrl(shots, k, existing, upload));
      assert images[k] in images;
    }
  }

  /** What a line's content contributes to its rebuilt text: texts as they are, images as their links. */
  function ItemParts(content: seq<LineItem>, links: map<string, string>): seq<string> {
    if content == [] then []
    else
      var item := content[|content| - 1];
      ItemParts(content[..|content| - 1], links)
      + match item
        case LineText(s) => [s]
        case LineImage(image) => if image.localPath in links then [links[image.localPath]] else []
        case LinePath(path) => if path in links then [links[path]] else []
  }

  /** An image without a link contributes nothing to the rebuilt text. */
  lemma UnlinkedImageOmitted(content: seq<LineItem>, image: ImageData, links: map<string, string>)
    requires image.localPath !in links
    ensures ItemParts(content + [LineImage(image)], links) == ItemParts(content, links)
  {
    assert (content + [LineImage(image)])[..|content|] == content;
  }

  /** The parts of one line's content, collected by the loop over its content sequence. */
  method LineParts(content: seq<LineItem>, links: map<string, string>) returns (parts: seq<string>)
    ensures parts == ItemParts(content, links)
  {
    parts := [];
    var k := 0;
    while k < |content|
      invariant 0 <= k <= |content|
      invariant parts == ItemParts(content[..k], links)
    {
      assert content[..k + 1][..k] == content[..k];
      match content[k] {
        case LineText(s) =>
          parts := parts + [s];
        case LineImage(image) =>
          if image.localPath in links {
            parts := parts + [links[image.localPath]];
          }
        case LinePath(path) =>
          if path in links {
            parts := parts + [links[path]];
          }
      }
      k := k + 1;
    }
    assert content[..k] == content;
  }

  /** A rebuilt line's text: the "\n\n"-join of its non-empty parts. */
  function RebuiltText(content: seq<LineItem>, links: map<string, string>): string {
    Join("\n\n", NonEmpty(ItemParts(content, links)))
  }

  /**
   * The lines rebuilt from their content sequences. A line takes its own
   * page number only when its content sequence is non-empty; otherwise it
   * keeps `page`, the number last seen.
   */
  function Rebuilt(lines: seq<LineData>, links: map<string, string>, page: int): seq<LineData> {
    if lines == [] then []
    else
      var line := lines[0];
      var p := if line.content != [] then line.pageNum else page;
      [LineData(RebuiltText(line.content, links), line.images, p, [])] + Rebuilt(lines[1..], links, p)
  }

  /**
   * Rebuilding keeps the lines and their images in place, replaces each
   * text by the one rebuilt from the content sequence, and keeps the page
   * number of every line that has a content sequence.
   */
  lemma RebuiltShape(lines: seq<LineData>, links: map<string, string>, page: int)
    ensures var r := Rebuilt(lines, links, page);
      && |r| == |lines|
      && (forall k :: 0 <= k < |lines| ==>
        r[k].text == RebuiltText(lines[k].content, links) && r[k].images == lines[k].images && r[k].content == [])
      && (forall k :: 0 <= k < |lines| && lines[k].content != [] ==> r[k].pageNum == lines[k].pageNum)
  {
    RebuiltLength(lines, links, page);
    forall k | 0 <= k < |lines|
      ensures Rebuilt(lines, links, page)[k].text == RebuiltText(lines[k].content, links)
      ensures Rebuilt(lines, links, page)[k].images == lines[k].images && Rebuilt(lines, links, page)[k].content == []
      ensures lines[k].content != [] ==> Rebuilt(lines, links, page)[k].pageNum == lines[k].pageNum
    {
      RebuiltAt(lines, links, page, k);
    }
  }

  lemma {:induction false} RebuiltLength(lines: seq<LineData>, links: map<string, string>, page: int)
    ensures |Rebuilt(lines, links, page)| == |lines|
  {
    if lines != [] {
      RebuiltLength(lines[1..], links, if lines[0].content != [] then lines[0].pageNum else page);
    }
  }

  /** Line `k` of the rebuilt lines. */
  lemma {:induction false} RebuiltAt(lines: seq<LineData>, links: map<string, string>, page: int, k: nat)
    requires k < |lines|
    ensures |Rebuilt(lines, links, page)| == |lines|
    ensures Rebuilt(lines, links, page)[k].text == RebuiltText(lines[k].content, links)
    ensures Rebuilt(lines, links, page)[k].images == lines[k].images && Rebuilt(lines, links, page)[k].content == []
    ensures lines[k].content != [] ==> Rebuilt(lines, links, page)[k].pageNum == lines[k].pageNum
  {
    RebuiltLength(lines, links, page);
    if k > 0 {
      var p := if lines[0].content != [] then lines[0].pageNum else page;
      RebuiltAt(lines[1..], links, p, k - 1);
      assert lines[1..][k - 1] == lines[k];
    }
  }

  /** The rebuilding loop over all lines. */
  method RebuildLines(lines: seq<LineData>, links: map<string, string>, page0: int)
    returns (processed: seq<LineData>)
    ensures processed == Rebuilt(lines, links, page0)
  {
    processed := [];
    var pageNum := page0;
    var i := 0;
    while i < |lines|
      invariant 0 <= i <= |lines|
      invariant processed + Rebuilt(lines[i..], links, pageNum) == Rebuilt(lines, links, page0)
    {
      var line := lines[i];
      assert lines[i..][1..] == lines[i + 1..];
      var parts := LineParts(line.content, links);
      if line.content != [] {
        pageNum := line.pageNum;
      }
      var finalText := Join("\n\n", NonEmpty(parts));
      AppendAssoc(processed, [LineData(finalText, line.images, pageNum, [])], Rebuilt(lines[i + 1..], links, pageNum));
      processed := processed + [LineData(finalText, line.images, pageNum, [])];
      i := i + 1;
    }
    assert processed + [] == processed;
  }

  /** `x` placed before the first line whose page number is not below its own. */
  function InsertByPage(x: LineData, sorted: seq<LineData>): (r: seq<LineData>)
    ensures multiset(r) == multiset(sorted) + multiset{x}
  {
    if sorted == [] || x.pageNum <= sorted[0].pageNum then [x] + sorted
    else
      assert sorted == [sorted[0]] + sorted[1..];
      [sorted[0]] + InsertByPage(x, sorted[1..])
  }

  /** `sorted(lines, key=lambda x: x.page_num)`: insertion from the back, so equal keys keep their order. */
  function SortByPage(lines: seq<LineData>): (r: seq<LineData>)
    ensures multiset(r) == multiset(lines)
  {
    if lines == [] then []
    else
      assert lines == [lines[0]] + lines[1..];
      InsertByPage(lines[0], SortByPage(lines[1..]))
  }

  predicate SortedByPage(lines: seq<LineData>) {
    forall i, j :: 0 <= i < j < |lines| ==> lines[i].pageNum <= lines[j].pageNum
  }

  /** The lines on page `pg`, in order. */
  function OnPageLines(lines: seq<LineData>, pg: int): seq<LineData> {
    if lines == [] then []
    else (if lines[0].pageNum == pg then [lines[0]] else []) + OnPageLines(lines[1..], pg)
  }

  lemma {:induction false} InsertSorted(x: LineData, s: seq<LineData>)
    requires SortedByPage(s)
    ensures SortedByPage(InsertByPage(x, s))
    ensures InsertByPage(x, s) != [] && (InsertByPage(x, s)[0] == x || (s != [] && InsertByPage(x, s)[0] == s[0]))
  {
    if s != [] && x.pageNum > s[0].pageNum {
      InsertSorted(x, s[1..]);
    }
  }

  lemma OnPageCons(y: LineData, rest: seq<LineData>, pg: int)
    ensures OnPageLines([y] + rest, pg) == (if y.pageNum == pg then [y] else []) + OnPageLines(rest, pg)
  {
    assert ([y] + rest)[1..] == rest;
  }

  lemma {:induction false} InsertStable(x: LineData, s: seq<LineData>, pg: int)
    ensures OnPageLines(InsertByPage(x, s), pg) == (if x.pageNum == pg then [x] else []) + OnPageLines(s, pg)
  {
    if s != [] && x.pageNum > s[0].pageNum {
      var t := InsertByPage(x, s[1..]);
      InsertStable(x, s[1..], pg);
      OnPageCons(s[0], t, pg);
      OnPageCons(s[0], s[1..], pg);
      assert s == [s[0]] + s[1..];
    } else {
      OnPageCons(x, s, pg);
    }
  }

  /**
   * The sort is ordered by page number, is a permutation, and is stable:
   * the lines of each page keep their relative order.
   */
  lemma {:induction false} SortByPageCorrect(lines: seq<LineData>)
    ensures SortedByPage(SortByPage(lines))
    ensures multiset(SortByPage(lines)) == multiset(lines)
    ensures forall pg :: OnPageLines(SortByPage(lines), pg) == OnPageLines(lines, pg)
  {
    if lines != [] {
      SortByPageCorrect(lines[1..]);
      InsertSorted(lines[0], SortByPage(lines[1..]));
      forall pg ensures OnPageLines(SortByPage(lines), pg) == OnPageLines(lines, pg) {
        InsertStable(lines[0], SortByPage(lines[1..]), pg);
      }
    }
  }

  /** Lines without images hold no image at all. */
  lemma {:induction false} NoImagesNone(lines: seq<LineData>)
    requires !HasImages(lines)
    ensures AllImages(lines) == []
  {
    if lines != [] {
      assert lines[|lines| - 1].images == [];
      NoImagesNone(lines[..|lines| - 1]);
    }
  }

  /** Whether `images_to_process` is non-empty. */
  method AnyImages(lines: seq<LineData>) returns (withImages: bool)
    ensures withImages <==> HasImages(lines)
  {
    withImages := false;
    var i := 0;
    while i < |lines|
      invariant 0 <= i <= |lines|
      invariant withImages <==> exists k :: 0 <= k < i && lines[k].images != []
    {
      if lines[i].images != [] {
        withImages := true;
      }
      i := i + 1;
    }
  }

  /**
   * `_process_multiprocess_results`. Without any image the lines are only
   * sorted; otherwise the images are uploaded, every line is rebuilt from
   * its content sequence with the links of the uploaded images, and the
   * rebuilt lines are sorted by page number. The page number carried into
   * the rebuilding is that of the last line with images.
   */
  method ProcessResults(lines: seq<LineData>, existing: set<string>, upload: string -> string)
    returns (sorted: seq<LineData>)
    requires DistinctImages(AllImages(lines))
    modifies AllImages(lines)
    ensures !HasImages(lines) ==> sorted == SortByPage(lines)
    ensures HasImages(lines) ==>
      sorted == SortByPage(Rebuilt(lines, LinksAfter(old(Shots(AllImages(lines))), existing, upload), LastImagePage(lines, 0)))
    ensures forall im :: im in AllImages(lines) ==>
      im.url == old(im.url) || (old(im.url) == "" && im.url == upload(im.localPath) && im.url != "")
    ensures forall k :: 0 <= k < |AllImages(lines)| ==>
      AllImages(lines)[k].url == NewUrl(old(Shots(AllImages(lines))), k, existing, upload)
  {
    var withImages := AnyImages(lines);
    var processed;
    if withImages {
      var images := AllImages(lines);
      ghost var before := Shots(images);
      var links := UploadImages(images, existing, upload);
      assert links == LinksAfter(before, existing, upload);
      var pageNum := LastImagePage(lines, 0);
      processed := RebuildLines(lines, links, pageNum);
      assert processed == Rebuilt(lines, LinksAfter(old(Shots(AllImages(lines))), existing, upload), LastImagePage(lines, 0));
    } else {
      NoImagesNone(lines);
      processed := lines;
    }
    sorted := SortByPage(processed);
  }

  // ---------------------------------------------------------------------
  // The text and image map of `DocxParser.parse_into_text`
  // ---------------------------------------------------------------------

  /** The section texts that are set and non-empty, joined by blank lines. */
  function SectionText(lines: seq<LineData>): string {
    Join("\n\n", NonEmpty(LineTexts(lines)))
  }

  function LineTexts(lines: seq<LineData>): seq<string> {
    if lines == [] then [] else LineTexts(lines[..|lines| - 1]) + [lines[|lines| - 1].text]
  }

  /**
   * `image_parts`: each image with a url maps it to the image; a later image
   * with the same url wins. The PIL object an image holds is not modelled,
   * so its `localPath`, which names it, stands for it.
   */
  function ImageParts(images: seq<ImageData>): map<string, string>
    reads images
  {
    if images == [] then map[]
    else
      var last := images[|images| - 1];
      var m := ImageParts(images[..|images| - 1]);
      if last.url != "" then m[last.url := last.localPath] else m
  }

  /** The image map holds exactly the non-empty urls of the images, each mapped to an image carrying it. */
  lemma {:induction false} ImagePartsKeys(images: seq<ImageData>)
    ensures forall u :: u in ImageParts(images) <==> u != "" && exists k :: 0 <= k < |images| && images[k].url == u
    ensures forall u :: u in ImageParts(images) ==>
      exists k :: 0 <= k < |images| && images[k].url == u && ImageParts(images)[u] == images[k].localPath
  {
    if images != [] {
      var init := images[..|images| - 1];
      ImagePartsKeys(init);
      forall u | u != "" && exists k :: 0 <= k < |images| && images[k].url == u
        ensures u in ImageParts(images)
      {
        var k :| 0 <= k < |images| && images[k].url == u;
        if k < |images| - 1 {
          assert init[k] == images[k];
        }
      }
      forall u | u in ImageParts(images)
        ensures u != "" && exists k :: 0 <= k < |images| && images[k].url == u && ImageParts(images)[u] == images[k].localPath
      {
        if u != images[|images| - 1].url {
          assert u in ImageParts(init);
          var k :| 0 <= k < |init| && init[k].url == u && ImageParts(init)[u] == init[k].localPath;
          assert images[k] == init[k];
        }
      }
    }
  }

  /** A document `_parse_using_simple_method` could load: paragraph texts and table rows of cell texts. */
  datatype SimpleDoc = SimpleDoc(paragraphs: seq<string>, tables: seq<seq<seq<string>>>)

  /** The stripped texts that are not blank, in order. */
  function StrippedNonBlank(texts: seq<string>): (r: seq<string>)
    ensures forall k :: 0 <= k < |r| ==> r[k] != []
  {
    if texts == [] then []
    else
      var t := Strip(texts[|texts| - 1]);
      StrippedNonBlank(texts[..|texts| - 1]) + (if t != "" then [t] else [])
  }

  /** A table row as one line: its non-blank cells, stripped, joined by " | ". */
  function RowText(cells: seq<string>): string {
    Join(" | ", StrippedNonBlank(cells))
  }

  /** The rows of a table that have some non-blank cell, as lines. */
  function TableLines(rows: seq<seq<string>>): (r: seq<string>)
    ensures forall k :: 0 <= k < |r| ==> r[k] != []
  {
    if rows == [] then []
    else
      var line := RowText(rows[|rows| - 1]);
      TableLines(rows[..|rows| - 1]) + (if line != "" then [line] else [])
  }

  function TablesLines(tables: seq<seq<seq<string>>>): (r: seq<string>)
    ensures forall k :: 0 <= k < |r| ==> r[k] != []
  {
    if tables == [] then [] else TablesLines(tables[..|tables| - 1]) + TableLines(tables[|tables| - 1])
  }

  /**
   * `_parse_using_simple_method`: the non-blank paragraphs, stripped, then
   * the non-blank table rows, joined by blank lines; "" when the document
   * cannot be loaded.
   */
  function SimpleText(doc: Option<SimpleDoc>): string {
    match doc
    case None => ""
    case Some(d) => Join("\n\n", StrippedNonBlank(d.paragraphs) + TablesLines(d.tables))
  }

  /** A row's line is empty exactly when all its cells are blank. */
  lemma {:induction false} RowTextEmptyIff(cells: seq<string>)
    ensures RowText(cells) == "" <==> forall k :: 0 <= k < |cells| ==> !HasNonSpace(cells[k])
  {
    JoinEmptyIff(" | ", StrippedNonBlank(cells));
    StrippedNonBlankEmptyIff(cells);
  }

  lemma {:induction false} StrippedNonBlankEmptyIff(texts: seq<string>)
    ensures StrippedNonBlank(texts) == [] <==> forall k :: 0 <= k < |texts| ==> !HasNonSpace(texts[k])
  {
    if texts != [] {
      var init := texts[..|texts| - 1];
      StrippedNonBlankEmptyIff(init);
      StripNonEmptyIff(texts[|texts| - 1]);
      if StrippedNonBlank(texts) == [] {
        forall k | 0 <= k < |texts| ensures !HasNonSpace(texts[k]) {
          if k < |texts| - 1 {
            assert texts[k] == init[k];
          }
        }
      }
      if forall k :: 0 <= k < |texts| ==> !HasNonSpace(texts[k]) {
        assert forall k :: 0 <= k < |init| ==> !HasNonSpace(init[k]) by {
          forall k | 0 <= k < |init| ensures !HasNonSpace(init[k]) {
            assert init[k] == texts[k];
          }
        }
      }
    }
  }

  /** The fallback's value: the text with an empty image map. */
  function SimpleValue(doc: Option<SimpleDoc>): (r: Chunker.ParsedValue)
    ensures r.Pair? && r.first.Text? && r.imageMap == map[]
  {
    Chunker.Pair(Chunker.Text(SimpleText(doc)), map[])
  }

  /**
   * `DocxParser.parse_into_text` as written. `outcome` is what the `Docx`
   * pipeline produced, None when it raised. The except branch wraps the
   * fallback's (text, map) pair in a second pair.
   */
  function ParseIntoTextAsWritten(outcome: Option<seq<LineData>>, doc: Option<SimpleDoc>): (r: Chunker.ParsedValue)
    reads if outcome.Some? then AllImages(outcome.value) else []
    ensures outcome.None? ==> r.Pair? && r.first.Pair?
  {
    match outcome
    case None => Chunker.Pair(SimpleValue(doc), map[])
    case Some(lines) =>
      var text := SectionText(lines);
      if text == "" then SimpleValue(doc) else Chunker.Pair(Chunker.Text(text), ImageParts(AllImages(lines)))
  }

  /** When the pipeline raises, the value handed back is one `BaseParser.parse` cannot read as text. */
  lemma RaisedPipelineUnreadable(doc: Option<SimpleDoc>)
    ensures var r := ParseIntoTextAsWritten(None, doc); r.Pair? && !r.first.Text?
  {
  }

  /**
   * `DocxParser.parse_into_text`, with the fallback of the except branch
   * returned as it is. The value is always a (text, image map) pair: the
   * sections' text with the map of uploaded images, or the simple reading
   * of the document with an empty map when there is no section text or the
   * pipeline raised.
   */
  function ParseIntoText(outcome: Option<seq<LineData>>, doc: Option<SimpleDoc>): (r: Chunker.ParsedValue)
    reads if outcome.Some? then AllImages(outcome.value) else []
    ensures r.Pair? && r.first.Text?
    ensures outcome.Some? && SectionText(outcome.value) != "" ==>
      r.first.s == SectionText(outcome.value) && r.imageMap == ImageParts(AllImages(outcome.value))
    ensures outcome.None? || SectionText(outcome.value) == "" ==> r == SimpleValue(doc)
  {
    match outcome
    case None => SimpleValue(doc)
    case Some(lines) =>
      var text := SectionText(lines);
      if text == "" then SimpleValue(doc) else Chunker.Pair(Chunker.Text(text), ImageParts(AllImages(lines)))
  }

  /** The section text is empty exactly when no line has text, and then the simple reader is used. */
  lemma SectionTextEmptyIff(lines: seq<LineData>)
    ensures SectionText(lines) == "" <==> NonEmpty(LineTexts(lines)) == []
  {
    JoinEmptyIff("\n\n", NonEmpty(LineTexts(lines)));
  }
}
