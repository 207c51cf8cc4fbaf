/**
 * The page structure of `Docx`: which paragraphs go on which page
 * (`_identify_page_paragraph_mapping`), which pages are processed
 * (`_apply_page_limit`) and how many worker processes are used
 * (`_calculate_optimal_workers`). A paragraph is reduced to whether it
 * carries a page break (a rendered page break, a `w:br type="page"` run or
 * a section break); python-docx's XML inspection is outside the model.
 */
module DocxPages {

  /** The number of page breaks among the paragraphs before `p`: the page `p` lands on. */
  function BreaksBefore(breaks: seq<bool>, p: nat): nat
    requires p <= |breaks|
  {
    if p == 0 then 0 else BreaksBefore(breaks, p - 1) + (if breaks[p - 1] then 1 else 0)
  }

  lemma {:induction false} BreaksMono(breaks: seq<bool>, p: nat, q: nat)
    requires p <= q <= |breaks|
    ensures BreaksBefore(breaks, p) <= BreaksBefore(breaks, q)
    decreases q
  {
    if p < q {
      BreaksMono(breaks, p, q - 1);
    }
  }

  /** The paragraphs among the first `m` that land on page `pg`, in ascending order. */
  function OnPage(breaks: seq<bool>, pg: int, m: nat): seq<nat>
    requires m <= |breaks|
  {
    if m == 0 then []
    else OnPage(breaks, pg, m - 1) + (if BreaksBefore(breaks, m - 1) == pg then [m - 1] else [])
  }

  /** A page lists exactly the paragraphs its preceding breaks select, in ascending order. */
  lemma {:induction false} OnPageMembers(breaks: seq<bool>, pg: int, m: nat)
    requires m <= |breaks|
    ensures var r := OnPage(breaks, pg, m);
      && (forall p :: p in r <==> 0 <= p < m && BreaksBefore(breaks, p) == pg)
      && (forall i :: 0 <= i < |r| ==> r[i] < m)
      && (forall i, j :: 0 <= i < j < |r| ==> r[i] < r[j])
  {
    if m > 0 {
      OnPageMembers(breaks, pg, m - 1);
    }
  }

  /**
   * How many paragraphs the standard scan reaches, starting at `p`: it stops
   * right after a paragraph whose break opens a page beyond `maxPage`.
   */
  function Reached(breaks: seq<bool>, maxPage: int, p: nat): (r: nat)
    requires p <= |breaks|
    ensures p <= r <= |breaks|
    decreases |breaks| - p
  {
    if p == |breaks| then p
    else if breaks[p] && BreaksBefore(breaks, p + 1) > maxPage then p + 1
    else Reached(breaks, maxPage, p + 1)
  }

  /** The pages the first `m` paragraphs land on. */
  function UsedPages(breaks: seq<bool>, m: nat): set<int>
    requires m <= |breaks|
  {
    set q | 0 <= q < m :: BreaksBefore(breaks, q)
  }

  /**
   * The standard mapping: every reached paragraph is on the page its
   * preceding breaks select; only pages holding a paragraph appear; with no
   * paragraph at all, page 0 holds none.
   */
  function StandardMapping(breaks: seq<bool>, maxPage: int): map<int, seq<nat>> {
    var m := Reached(breaks, maxPage, 0);
    if m == 0 then map[0 := []]
    else map pg | pg in UsedPages(breaks, m) :: OnPage(breaks, pg, m)
  }

  /** The map after scanning `m` paragraphs: pages `0..top`, each with its paragraphs so far. */
  ghost predicate ScanState(breaks: seq<bool>, pages: map<int, seq<nat>>, top: int, m: nat)
    requires m <= |breaks|
  {
    && (forall pg :: pg in pages <==> 0 <= pg <= top)
    && (forall pg :: pg in pages ==> pages[pg] == OnPage(breaks, pg, m))
  }

  /** Appending paragraph `p` changes only the page it lands on. */
  lemma OnPageStep(breaks: seq<bool>, pg: int, p: nat)
    requires p < |breaks|
    ensures OnPage(breaks, pg, p + 1) ==
      OnPage(breaks, pg, p) + (if BreaksBefore(breaks, p) == pg then [p] else [])
  {
  }

  /** One paragraph more, appended to the page it lands on. */
  lemma ScanAppend(breaks: seq<bool>, pages: map<int, seq<nat>>, top: int, p: nat)
    requires p < |breaks| && ScanState(breaks, pages, top, p)
    requires 0 <= BreaksBefore(breaks, p) <= top
    ensures var cur := BreaksBefore(breaks, p);
      ScanState(breaks, pages[cur := pages[cur] + [p]], top, p + 1)
  {
    var cur := BreaksBefore(breaks, p);
    var pages' := pages[cur := pages[cur] + [p]];
    forall pg | pg in pages' ensures pages'[pg] == OnPage(breaks, pg, p + 1) {
      OnPageStep(breaks, pg, p);
      if pg != cur {
        assert OnPage(breaks, pg, p) + [] == OnPage(breaks, pg, p);
      }
    }
  }

  /** A page beyond every page reached so far holds nothing yet. */
  lemma {:induction false} NewPageEmpty(breaks: seq<bool>, pg: int, m: nat)
    requires 0 < m <= |breaks| && pg > BreaksBefore(breaks, m - 1)
    ensures OnPage(breaks, pg, m) == []
  {
    OnPageStep(breaks, pg, m - 1);
    if m > 1 {
      BreaksMono(breaks, m - 2, m - 1);
      NewPageEmpty(breaks, pg, m - 1);
    }
  }

  /** A page is non-empty exactly when some reached paragraph lands on it. */
  lemma OnPageNonEmpty(breaks: seq<bool>, pg: int, m: nat)
    requires m <= |breaks|
    ensures OnPage(breaks, pg, m) != [] <==> pg in UsedPages(breaks, m)
  {
    OnPageMembers(breaks, pg, m);
    if pg in UsedPages(breaks, m) {
      var q :| 0 <= q < m && BreaksBefore(breaks, q) == pg;
      assert q in OnPage(breaks, pg, m);
    }
    var r := OnPage(breaks, pg, m);
    if r != [] {
      assert r[0] in r;
      assert BreaksBefore(breaks, r[0]) in UsedPages(breaks, m);
    }
  }

  /** The scanned map without its empty pages. */
  function DropEmpty(pages: map<int, seq<nat>>): map<int, seq<nat>> {
    map pg | pg in pages && pages[pg] != [] :: pages[pg]
  }

  /** The scanned map with its empty pages removed is the standard mapping. */
  lemma ScanResult(breaks: seq<bool>, maxPage: int, pages: map<int, seq<nat>>, top: int, m: nat)
    requires 0 < m <= |breaks| && ScanState(breaks, pages, top, m)
    requires Reached(breaks, maxPage, 0) == m
    requires BreaksBefore(breaks, m - 1) <= top
    ensures DropEmpty(pages) == StandardMapping(breaks, maxPage)
  {
    var kept := DropEmpty(pages);
    var spec := StandardMapping(breaks, maxPage);
    assert spec == map pg | pg in UsedPages(breaks, m) :: OnPage(breaks, pg, m);
    forall pg ensures pg in kept <==> pg in spec {
      OnPageNonEmpty(breaks, pg, m);
      if pg in UsedPages(breaks, m) {
        var q :| 0 <= q < m && BreaksBefore(breaks, q) == pg;
        BreaksMono(breaks, q, m - 1);
      }
    }
    assert kept.Keys == spec.Keys;
  }

  /**
   * The standard scan of `_identify_page_paragraph_mapping`: each paragraph
   * is appended to the current page before its own break is looked at; a
   * break opens the next page, and the scan stops once that page is past
   * `maxPage`. Empty pages are then removed, and an empty mapping falls back
   * to every paragraph on page 0.
   */
  method MapByBreaks(breaks: seq<bool>, maxPage: int) returns (pages: map<int, seq<nat>>)
    ensures pages == StandardMapping(breaks, maxPage)
  {
    pages := map[0 := []];
    var current := 0;
    var p := 0;
    ghost var finished := false;
    while p < |breaks|
      invariant 0 <= p <= |breaks|
      invariant current == BreaksBefore(breaks, p)
      invariant Reached(breaks, maxPage, 0) == Reached(breaks, maxPage, p)
      invariant ScanState(breaks, pages, current, p)
    {
      ScanAppend(breaks, pages, current, p);
      pages := pages[current := pages[current] + [p]];
      if breaks[p] {
        current := current + 1;
        if current > maxPage {
          ScanResult(breaks, maxPage, pages, current - 1, p + 1);
          finished := true;
          break;
        }
        if current !in pages {
          NewPageEmpty(breaks, current, p + 1);
          pages := pages[current := []];
        }
      }
      p := p + 1;
    }
    if !finished && p > 0 {
      ScanResult(breaks, maxPage, pages, current, p);
    }
    if |breaks| == 0 {
      assert current == 0 && (forall pg :: pg in pages <==> pg == 0) && pages[0] == [];
      assert pages == map[0 := []];
    }
    FallbackMapping(breaks, maxPage, pages);
    pages := DropEmpty(pages);
    if |pages| == 0 {
      pages := map[0 := Interval(0, |breaks|)];
    }
  }

  /** Dropping the empty pages of the scanned map, and falling back when none is left. */
  lemma FallbackMapping(breaks: seq<bool>, maxPage: int, pages: map<int, seq<nat>>)
    requires |breaks| == 0 ==> pages == map[0 := []]
    requires |breaks| > 0 ==> DropEmpty(pages) == StandardMapping(breaks, maxPage)
    ensures |DropEmpty(pages)| == 0 ==> map[0 := Interval(0, |breaks|)] == StandardMapping(breaks, maxPage)
    ensures |DropEmpty(pages)| != 0 ==> DropEmpty(pages) == StandardMapping(breaks, maxPage)
  {
    if |breaks| == 0 {
      assert DropEmpty(pages).Keys == {};
    } else {
      assert BreaksBefore(breaks, 0) in UsedPages(breaks, Reached(breaks, maxPage, 0));
    }
  }

  /** `list(range(lo, hi))`. */
  function Interval(lo: nat, hi: int): (r: seq<nat>)
    ensures |r| == if hi > lo then hi - lo else 0
    ensures forall k :: 0 <= k < |r| ==> r[k] == lo + k
    decreases hi - lo
  {
    if hi <= lo then [] else [lo] + Interval(lo + 1, hi)
  }

  const ParasPerPage: nat := 25

  /** How many paragraphs the heuristic scan takes: those whose page `p // 25` is within `maxPage`. */
  function HeuristicReach(n: nat, maxPage: int): (m: nat)
    ensures m <= n
  {
    if maxPage < 0 then 0
    else if n <= ParasPerPage * (maxPage + 1) then n
    else ParasPerPage * (maxPage + 1)
  }

  /** The last page the heuristic scan fills, given that it took `m` paragraphs (page 0 is always there). */
  function LastEstimated(m: nat): nat {
    if m == 0 then 0 else (m - 1) / ParasPerPage
  }

  /** The paragraphs of page `pg` among the first `m`: up to 25 consecutive indices. */
  function EstimatedPage(pg: nat, m: nat): seq<nat> {
    Interval(ParasPerPage * pg, if ParasPerPage * pg + ParasPerPage <= m then ParasPerPage * pg + ParasPerPage else m)
  }

  /** The heuristic mapping: pages of 25 consecutive paragraphs, page 0 always present. */
  function HeuristicMapping(n: nat, maxPage: int): map<int, seq<nat>> {
    var m := HeuristicReach(n, maxPage);
    map pg: nat | pg <= LastEstimated(m) :: EstimatedPage(pg, m)
  }

  /**
   * The mapping used for more than 1000 paragraphs: paragraph `p` goes on
   * page `p // 25`, and mapping stops at the first paragraph beyond `maxPage`.
   */
  method MapByEstimate(n: nat, maxPage: int) returns (pages: map<int, seq<nat>>)
    ensures pages == HeuristicMapping(n, maxPage)
  {
    pages := map[0 := []];
    var p := 0;
    while p < n
      invariant 0 <= p <= HeuristicReach(n, maxPage)
      invariant forall pg :: pg in pages <==> 0 <= pg <= LastEstimated(p)
      invariant forall pg: nat :: pg in pages ==> pages[pg] == EstimatedPage(pg, p)
    {
      var estPage := p / ParasPerPage;
      if estPage > maxPage {
        break;
      }
      if estPage !in pages {
        pages := pages[estPage := []];
      }
      pages := pages[estPage := pages[estPage] + [p]];
      p := p + 1;
    }
    assert p == HeuristicReach(n, maxPage);
  }

  /** `_identify_page_paragraph_mapping`: the estimate for more than 1000 paragraphs, else the break scan. */
  method IdentifyMapping(breaks: seq<bool>, maxPage: int) returns (pages: map<int, seq<nat>>)
    ensures |breaks| > 1000 ==> pages == HeuristicMapping(|breaks|, maxPage)
    ensures |breaks| <= 1000 ==> pages == StandardMapping(breaks, maxPage)
  {
    if |breaks| > 1000 {
      pages := MapByEstimate(|breaks|, maxPage);
    } else {
      pages := MapByBreaks(breaks, maxPage);
    }
  }

  /** The scan reaches at least the first paragraph. */
  lemma ReachedFirst(breaks: seq<bool>, maxPage: int)
    ensures Reached(breaks, maxPage, 0) == 0 <==> |breaks| == 0
  {
  }

  /** Every paragraph the scan reaches lands on a page no later than `max(maxPage, 0)`. */
  lemma {:induction false} ReachedPages(breaks: seq<bool>, maxPage: int, p: nat, q: nat)
    requires p <= q < |breaks| && q < Reached(breaks, maxPage, p)
    requires BreaksBefore(breaks, p) <= (if maxPage < 0 then 0 else maxPage)
    ensures BreaksBefore(breaks, q) <= (if maxPage < 0 then 0 else maxPage)
    decreases q - p
  {
    if p < q {
      assert Reached(breaks, maxPage, p) == Reached(breaks, maxPage, p + 1);
      ReachedPages(breaks, maxPage, p + 1, q);
    }
  }

  /**
   * The standard mapping never has an empty page (unless there is no
   * paragraph), lists each page's paragraphs in ascending order, puts a
   * paragraph only on the page its preceding breaks select, and uses no page
   * beyond `max(maxPage, 0)`.
   */
  lemma StandardMappingShape(breaks: seq<bool>, maxPage: int)
    ensures var mp := StandardMapping(breaks, maxPage);
      && (|breaks| > 0 ==> forall pg :: pg in mp ==> mp[pg] != [])
      && (forall pg :: pg in mp ==> forall i, j :: 0 <= i < j < |mp[pg]| ==> mp[pg][i] < mp[pg][j])
      && (forall pg, p :: pg in mp && p in mp[pg] ==> p < |breaks| && BreaksBefore(breaks, p) == pg)
      && (forall pg :: pg in mp ==> 0 <= pg <= (if maxPage < 0 then 0 else maxPage))
  {
    var m := Reached(breaks, maxPage, 0);
    ReachedFirst(breaks, maxPage);
    var mp := StandardMapping(breaks, maxPage);
    if m > 0 {
      forall pg | pg in mp
        ensures mp[pg] != [] && 0 <= pg <= (if maxPage < 0 then 0 else maxPage)
        ensures forall i, j :: 0 <= i < j < |mp[pg]| ==> mp[pg][i] < mp[pg][j]
        ensures forall p :: p in mp[pg] ==> p < |breaks| && BreaksBefore(breaks, p) == pg
      {
        OnPageMembers(breaks, pg, m);
        var q :| 0 <= q < m && BreaksBefore(breaks, q) == pg;
        assert q in mp[pg];
        ReachedPages(breaks, maxPage, 0, q);
      }
    }
  }

  /** Every reached paragraph is on the page its preceding breaks select. */
  lemma StandardMappingCovers(breaks: seq<bool>, maxPage: int, p: nat)
    requires p < Reached(breaks, maxPage, 0)
    ensures var mp := StandardMapping(breaks, maxPage);
      BreaksBefore(breaks, p) in mp && p in mp[BreaksBefore(breaks, p)]
  {
    assert BreaksBefore(breaks, p) in UsedPages(breaks, Reached(breaks, maxPage, 0));
    OnPageMembers(breaks, BreaksBefore(breaks, p), Reached(breaks, maxPage, 0));
  }

  /** In the heuristic mapping paragraph `p` is on page `p // 25`, and no page holds more than 25. */
  lemma HeuristicShape(n: nat, maxPage: int, p: nat)
    requires p < HeuristicReach(n, maxPage)
    ensures var mp := HeuristicMapping(n, maxPage);
      p / ParasPerPage in mp && p in mp[p / ParasPerPage]
      && forall pg :: pg in mp ==> |mp[pg]| <= ParasPerPage
  {
    var m := HeuristicReach(n, maxPage);
    var pg := p / ParasPerPage;
    assert ParasPerPage * pg <= p < ParasPerPage * pg + ParasPerPage;
    assert pg <= LastEstimated(m);
    var mp := HeuristicMapping(n, maxPage);
    assert mp[pg] == EstimatedPage(pg, m);
    assert mp[pg][p - ParasPerPage * pg] == p;
  }

  /** The mapped pages in `[lo, hi)`, ascending: `sorted` followed by the range filter. */
  function PagesIn(mapping: map<int, seq<nat>>, lo: int, hi: int): (r: seq<int>)
    ensures forall p :: p in r <==> p in mapping && lo <= p < hi
    ensures forall i, j :: 0 <= i < j < |r| ==> r[i] < r[j]
    ensures forall i :: 0 <= i < |r| ==> lo <= r[i]
    decreases hi - lo
  {
    if hi <= lo then []
    else
      var rest := PagesIn(mapping, lo + 1, hi);
      if lo in mapping then [lo] + rest else rest
  }

  /** `_apply_page_limit`: the mapped pages `p` with `fromPage <= p < toPage`, ascending. */
  function ApplyPageLimit(mapping: map<int, seq<nat>>, fromPage: int, toPage: int): (r: seq<int>)
    ensures forall p :: p in r <==> p in mapping && fromPage <= p < toPage
    ensures forall i, j :: 0 <= i < j < |r| ==> r[i] < r[j]
  {
    PagesIn(mapping, fromPage, toPage)
  }

  /**
   * `_calculate_optimal_workers`: never more workers than pages, nor than
   * cores; one core is left free when there are no images or fewer pages
   * than cores.
   */
  function OptimalWorkers(hasImages: bool, pageCount: nat, cpuCount: int): (r: int)
    ensures r <= pageCount
    ensures cpuCount >= 1 ==> r <= cpuCount
    ensures pageCount >= 1 && cpuCount >= 1 ==> r >= 1
    ensures (!hasImages || pageCount < cpuCount) && cpuCount >= 2 ==> r <= cpuCount - 1
    ensures hasImages && pageCount >= cpuCount >= 1 ==> r == cpuCount
  {
    var cap := if !hasImages || pageCount < cpuCount then (if cpuCount - 1 >= 1 then cpuCount - 1 else 1) else cpuCount;
    if pageCount <= cap then pageCount else cap
  }
}
