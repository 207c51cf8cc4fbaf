/**
 * The first stage of the chunker: cutting a text into basic units. Protected
 * structures (tables, code and math blocks, links, HTML tables) are found by a
 * regular-expression engine outside this model and arrive as character ranges;
 * they are filtered, sorted, merged, and kept whole, and the text between them is
 * split on the configured separators with the separators kept.
 */
module TextUnits {
  import opened Wrappers
  import opened PyStr

  /** A half-open range [start, end) of the text, as a regex match reports it. */
  datatype Range = Range(start: nat, end: nat)

  /** The offset of unit `j` in the concatenation of `units`. */
  function Offset(units: seq<string>, j: nat): nat
    requires j <= |units|
  {
    |Concat(units[..j])|
  }

  /** A slice of the units concatenates to the matching slice of the text. */
  lemma ConcatSlice(units: seq<string>, a: nat, b: nat)
    requires a <= b <= |units|
    ensures Offset(units, a) <= Offset(units, b) <= |Concat(units)|
    ensures Concat(units[a..b]) == Concat(units)[Offset(units, a)..Offset(units, b)]
    ensures Offset(units, b) - Offset(units, a) == |Concat(units[a..b])|
  {
    assert units[..b] == units[..a] + units[a..b];
    assert units == units[..b] + units[b..];
    ConcatAppend(units[..a], units[a..b]);
    ConcatAppend(units[..b], units[b..]);
  }

  lemma OffsetStep(units: seq<string>, j: nat)
    requires j < |units|
    ensures Offset(units, j + 1) == Offset(units, j) + |units[j]|
  {
    assert units[..j + 1] == units[..j] + [units[j]];
    ConcatAppend(units[..j], [units[j]]);
  }

  lemma OffsetOfPrefix(units: seq<string>, more: seq<string>, j: nat)
    requires j <= |units|
    ensures Offset(units + more, j) == Offset(units, j)
  {
    assert (units + more)[..j] == units[..j];
  }

  lemma UnitIsPrefix(units: seq<string>, more: seq<string>, j: int, text: string, r: Range)
    requires r.start <= r.end <= |text|
    requires UnitIs(units, j, text, r)
    ensures UnitIs(units + more, j, text, r)
  {
    OffsetOfPrefix(units, more, j);
  }

  lemma ConcatPair(a: string, b: string)
    ensures Concat([a, b]) == a + b
  {
    calc {
      Concat([a, b]);
      a + Concat([a, b][1..]);
      { assert [a, b][1..] == [b]; }
      a + Concat([b]);
      { assert [b][1..] == []; }
      a + (b + Concat([]));
    }
  }

  // ---------------------------------------------------------------------
  // re.split on the separator alternation
  // ---------------------------------------------------------------------

  /**
   * The separator the alternation `(s1|s2|...)` matches at position `q`: the first
   * one in list order that occurs there; an empty separator only when empty
   * matches are allowed at `q`. With no separators at all the model finds no
   * match, whereas Python's `()` would match the empty string everywhere; the
   * server never passes an empty list, as it replaces one by its defaults.
   */
  function MatchAt(s: string, seps: seq<string>, q: nat, allowEmpty: bool): (r: Option<string>)
    requires q <= |s|
    ensures r.Some? ==> r.value in seps && StartsWith(s[q..], r.value)
    ensures r.Some? && !allowEmpty ==> r.value != []
  {
    if seps == [] then None
    else if (seps[0] != [] || allowEmpty) && StartsWith(s[q..], seps[0]) then Some(seps[0])
    else MatchAt(s, seps[1..], q, allowEmpty)
  }

  /**
   * The alternation tries the separators in list order: it fails at `q` only
   * when no allowed separator occurs there, and otherwise picks the first one
   * in the list that does.
   */
  lemma {:induction false} MatchAtFirst(s: string, seps: seq<string>, q: nat, allowEmpty: bool)
    requires q <= |s|
    ensures var r := MatchAt(s, seps, q, allowEmpty);
      (r.None? <==> forall k :: 0 <= k < |seps| && (seps[k] != [] || allowEmpty) ==> !StartsWith(s[q..], seps[k])) &&
      (r.Some? ==>
         exists k :: 0 <= k < |seps| && seps[k] == r.value &&
           (forall i :: 0 <= i < k && (seps[i] != [] || allowEmpty) ==> !StartsWith(s[q..], seps[i])))
  {
    if seps != [] {
      MatchAtFirst(s, seps[1..], q, allowEmpty);
      assert forall k :: 1 <= k < |seps| ==> seps[k] == seps[1..][k - 1];
      var r := MatchAt(s, seps, q, allowEmpty);
      if !((seps[0] != [] || allowEmpty) && StartsWith(s[q..], seps[0])) && r.Some? {
        var k :| 0 <= k < |seps[1..]| && seps[1..][k] == r.value &&
          forall i :: 0 <= i < k && (seps[1..][i] != [] || allowEmpty) ==> !StartsWith(s[q..], seps[1..][i]);
        assert seps[k + 1] == r.value;
        forall i | 0 <= i < k + 1 && (seps[i] != [] || allowEmpty)
          ensures !StartsWith(s[q..], seps[i])
        {
          if i > 0 { assert seps[i] == seps[1..][i - 1]; }
        }
      }
    }
  }

  /**
   * `pattern.search(s, start)`: the leftmost position at or after `start` where
   * the alternation matches. After an empty match the engine may not match empty
   * again at the same position (`must_advance`).
   */
  function Search(s: string, seps: seq<string>, q: nat, start: nat, mustAdvance: bool): (r: Option<(nat, string)>)
    requires start <= q <= |s|
    ensures r.Some? ==> q <= r.value.0 && r.value.0 + |r.value.1| <= |s| && r.value.1 in seps
    ensures r.Some? ==> s[r.value.0..r.value.0 + |r.value.1|] == r.value.1
    ensures r.Some? && r.value.0 == start && mustAdvance ==> r.value.1 != []
    decreases |s| - q
  {
    match MatchAt(s, seps, q, q > start || !mustAdvance)
    case Some(m) => Some((q, m))
    case None => if q == |s| then None else Search(s, seps, q + 1, start, mustAdvance)
  }

  /** Whether the alternation matches at `q`, in a search that began at `start`. */
  function MatchHere(s: string, seps: seq<string>, q: nat, start: nat, mustAdvance: bool): Option<string>
    requires q <= |s|
  {
    MatchAt(s, seps, q, q > start || !mustAdvance)
  }

  /**
   * The search finds the leftmost match: None exactly when the alternation
   * matches nowhere from `q` on, and otherwise a match at a position before
   * which it matches nowhere.
   */
  lemma {:induction false} SearchLeftmost(s: string, seps: seq<string>, q: nat, start: nat, mustAdvance: bool)
    requires start <= q <= |s|
    ensures Search(s, seps, q, start, mustAdvance).None? <==>
      forall q' :: q <= q' <= |s| ==> MatchHere(s, seps, q', start, mustAdvance).None?
    ensures Search(s, seps, q, start, mustAdvance).Some? ==>
      var p, m := Search(s, seps, q, start, mustAdvance).value.0, Search(s, seps, q, start, mustAdvance).value.1;
      && MatchHere(s, seps, p, start, mustAdvance) == Some(m)
      && forall q' :: q <= q' < p ==> MatchHere(s, seps, q', start, mustAdvance).None?
    decreases |s| - q
  {
    if MatchHere(s, seps, q, start, mustAdvance).None? && q < |s| {
      SearchLeftmost(s, seps, q + 1, start, mustAdvance);
    }
  }

  /**
   * The list `re.split` builds from position `pos` on: the text before each match,
   * then the separator the capturing group matched, and finally the rest.
   */
  function SplitFrom(s: string, seps: seq<string>, pos: nat, mustAdvance: bool): seq<string>
    requires pos <= |s|
    decreases |s| - pos, if mustAdvance then 0 else 1
  {
    var found := Search(s, seps, pos, pos, mustAdvance);
    if found.None? then [s[pos..]]
    else
      var q, m := found.value.0, found.value.1;
      [s[pos..q], m] + SplitFrom(s, seps, q + |m|, |m| == 0)
  }

  /** `re.split("(" + "|".join(map(re.escape, seps)) + ")", s)`. */
  function SplitKeep(s: string, seps: seq<string>): seq<string> {
    SplitFrom(s, seps, 0, false)
  }

  /** The split when no separator occurs from `pos` on. */
  lemma SplitFromDone(s: string, seps: seq<string>, pos: nat, mustAdvance: bool)
    requires pos <= |s| && Search(s, seps, pos, pos, mustAdvance).None?
    ensures SplitFrom(s, seps, pos, mustAdvance) == [s[pos..]]
  {
  }

  /** Where the first match from `pos` on lies, and that it makes progress. */
  lemma SplitFromFound(s: string, seps: seq<string>, pos: nat, mustAdvance: bool, q: nat, m: string)
    requires pos <= |s| && Search(s, seps, pos, pos, mustAdvance) == Some((q, m))
    ensures pos <= q && q + |m| <= |s| && m == s[q..q + |m|] && m in seps
    ensures q + |m| > pos || (m == [] && !mustAdvance)
  {
  }

  /** The split when the first match from `pos` on is `m` at `q`: its first two pieces and the rest. */
  lemma SplitFromUnfold(s: string, seps: seq<string>, pos: nat, mustAdvance: bool, q: nat, m: string)
    requires pos <= |s| && Search(s, seps, pos, pos, mustAdvance) == Some((q, m))
    ensures q + |m| <= |s|
    ensures SplitFrom(s, seps, pos, mustAdvance) == [s[pos..q], m] + SplitFrom(s, seps, q + |m|, |m| == 0)
  {
  }

  /** The text before a match, the match and pieces that rebuild the rest rebuild the whole. */
  lemma PiecesConcat(s: string, pos: nat, q: nat, next: nat, pieces: seq<string>, rest: seq<string>)
    requires pos <= q <= next <= |s|
    requires pieces == [s[pos..q], s[q..next]] + rest && Concat(rest) == s[next..]
    ensures Concat(pieces) == s[pos..]
  {
    ConcatAppend([s[pos..q], s[q..next]], rest);
    ConcatPair(s[pos..q], s[q..next]);
    SliceSplit3(s, pos, q, next);
  }

  /** The pieces of the split concatenate back to the text they came from. */
  lemma {:induction false} SplitFromConcat(s: string, seps: seq<string>, pos: nat, mustAdvance: bool)
    requires pos <= |s|
    ensures Concat(SplitFrom(s, seps, pos, mustAdvance)) == s[pos..]
    decreases |s| - pos, if mustAdvance then 0 else 1
  {
    var found := Search(s, seps, pos, pos, mustAdvance);
    if found.None? {
      SplitFromDone(s, seps, pos, mustAdvance);
    } else {
      var q, m := found.value.0, found.value.1;
      SplitFromFound(s, seps, pos, mustAdvance, q, m);
      SplitFromConcat(s, seps, q + |m|, |m| == 0);
      ConcatFound(s, seps, pos, mustAdvance, q, m);
    }
  }

  /** A match at `q` extends a rebuilt rest to the rebuilt text from `pos`. */
  lemma ConcatFound(s: string, seps: seq<string>, pos: nat, mustAdvance: bool, q: nat, m: string)
    requires pos <= |s| && Search(s, seps, pos, pos, mustAdvance) == Some((q, m))
    requires q + |m| <= |s| && Concat(SplitFrom(s, seps, q + |m|, |m| == 0)) == s[q + |m|..]
    ensures Concat(SplitFrom(s, seps, pos, mustAdvance)) == s[pos..]
  {
    SplitFromFound(s, seps, pos, mustAdvance, q, m);
    SplitFromUnfold(s, seps, pos, mustAdvance, q, m);
    PiecesConcat(s, pos, q, q + |m|, SplitFrom(s, seps, pos, mustAdvance), SplitFrom(s, seps, q + |m|, |m| == 0));
  }

  lemma SliceSplit3(s: string, a: nat, b: nat, c: nat)
    requires a <= b <= c <= |s|
    ensures s[a..] == s[a..b] + s[b..c] + s[c..]
  {
  }

  /** Every piece at an odd position of the list is one of the separators. */
  predicate OddsAreSeparators(pieces: seq<string>, seps: seq<string>) {
    forall i :: 0 <= i < |pieces| && i % 2 == 1 ==> pieces[i] in seps
  }

  lemma OddsCons(a: string, m: string, rest: seq<string>, seps: seq<string>)
    requires m in seps && OddsAreSeparators(rest, seps)
    ensures OddsAreSeparators([a, m] + rest, seps)
  {
    var pieces := [a, m] + rest;
    forall i | 0 <= i < |pieces| && i % 2 == 1
      ensures pieces[i] in seps
    {
      if i >= 2 {
        assert pieces[i] == rest[i - 2];
      }
    }
  }

  /** The captured pieces (the odd positions of the list) are separators. */
  lemma {:induction false} SplitFromAlternates(s: string, seps: seq<string>, pos: nat, mustAdvance: bool)
    requires pos <= |s|
    ensures OddsAreSeparators(SplitFrom(s, seps, pos, mustAdvance), seps)
    decreases |s| - pos, if mustAdvance then 0 else 1
  {
    var found := Search(s, seps, pos, pos, mustAdvance);
    if found.None? {
      SplitFromDone(s, seps, pos, mustAdvance);
    } else {
      var q, m := found.value.0, found.value.1;
      SplitFromFound(s, seps, pos, mustAdvance, q, m);
      SplitFromAlternates(s, seps, q + |m|, |m| == 0);
      AlternatesFound(s, seps, pos, mustAdvance, q, m);
    }
  }

  /** A match at `q` puts a separator in front of a rest whose odd pieces are separators. */
  lemma AlternatesFound(s: string, seps: seq<string>, pos: nat, mustAdvance: bool, q: nat, m: string)
    requires pos <= |s| && Search(s, seps, pos, pos, mustAdvance) == Some((q, m))
    requires q + |m| <= |s| && OddsAreSeparators(SplitFrom(s, seps, q + |m|, |m| == 0), seps)
    ensures OddsAreSeparators(SplitFrom(s, seps, pos, mustAdvance), seps)
  {
    SplitFromFound(s, seps, pos, mustAdvance, q, m);
    SplitFromUnfold(s, seps, pos, mustAdvance, q, m);
    OddsCons(s[pos..q], m, SplitFrom(s, seps, q + |m|, |m| == 0), seps);
  }

  lemma SplitKeepConcat(s: string, seps: seq<string>)
    ensures Concat(SplitKeep(s, seps)) == s
  {
    SplitFromConcat(s, seps, 0, false);
  }

  /** The units a stretch of unprotected text contributes: the non-empty split pieces. */
  function GapUnits(s: string, seps: seq<string>): (r: seq<string>)
    ensures Concat(r) == s
    ensures forall k :: 0 <= k < |r| ==> r[k] != []
  {
    SplitKeepConcat(s, seps);
    ConcatNonEmpty(SplitKeep(s, seps));
    NonEmpty(SplitKeep(s, seps))
  }

  // ---------------------------------------------------------------------
  // protected ranges
  // ---------------------------------------------------------------------

  predicate InText(text: string, rs: seq<Range>) {
    forall k :: 0 <= k < |rs| ==> rs[k].start <= rs[k].end <= |text|
  }

  /** The matches kept by `if match.group(0).strip()`. */
  function NonBlank(text: string, rs: seq<Range>): (r: seq<Range>)
    requires InText(text, rs)
    ensures forall x :: x in r <==> x in rs && HasNonSpace(text[x.start..x.end])
    ensures forall k :: 0 <= k < |r| ==> r[k].start < r[k].end <= |text|
  {
    if rs == [] then []
    else
      var rest := NonBlank(text, rs[1..]);
      assert InText(text, rs[1..]);
      if HasNonSpace(text[rs[0].start..rs[0].end]) then [rs[0]] + rest else rest
  }

  predicate SortedByStart(rs: seq<Range>) {
    forall i, j :: 0 <= i < j < |rs| ==> rs[i].start <= rs[j].start
  }

  /** Insert `r` after every range with a smaller or equal start (keeps the sort stable). */
  function InsertByStart(r: Range, rs: seq<Range>): (out: seq<Range>)
    requires SortedByStart(rs)
    ensures SortedByStart(out)
    ensures multiset(out) == multiset(rs) + multiset{r}
  {
    if rs == [] then [r]
    else if r.start < rs[0].start then [r] + rs
    else
      var rest := InsertByStart(r, rs[1..]);
      InsertBehind(r, rs, rest);
      [rs[0]] + rest
  }

  /** Putting the first range back in front of the insertion into the others. */
  lemma InsertBehind(r: Range, rs: seq<Range>, rest: seq<Range>)
    requires SortedByStart(rs) && rs != [] && rs[0].start <= r.start
    requires SortedByStart(rest) && multiset(rest) == multiset(rs[1..]) + multiset{r}
    ensures SortedByStart([rs[0]] + rest)
    ensures multiset([rs[0]] + rest) == multiset(rs) + multiset{r}
  {
    var tail := rs[1..];
    assert rs == [rs[0]] + tail;
    forall k | 0 <= k < |rest| ensures rs[0].start <= rest[k].start {
      InsertedFrom(r, tail, rest, k);
      if rest[k] != r {
        var i :| 0 <= i < |tail| && tail[i] == rest[k];
        assert tail[i] == rs[i + 1];
      }
    }
    var out := [rs[0]] + rest;
    forall i, j | 0 <= i < j < |out| ensures out[i].start <= out[j].start {
      if i > 0 {
        assert out[i] == rest[i - 1] && out[j] == rest[j - 1];
      } else {
        assert out[j] == rest[j - 1];
      }
    }
  }

  lemma InsertedFrom(r: Range, tail: seq<Range>, rest: seq<Range>, k: int)
    requires multiset(rest) == multiset(tail) + multiset{r}
    requires 0 <= k < |rest|
    ensures rest[k] == r || rest[k] in tail
  {
    assert rest[k] in multiset(rest);
  }

  /** `rs.sort(key=lambda x: x[0])`: a stable sort by start. */
  function SortByStart(rs: seq<Range>): (out: seq<Range>)
    ensures SortedByStart(out)
    ensures multiset(out) == multiset(rs)
  {
    if rs == [] then []
    else
      assert rs == rs[..|rs| - 1] + [rs[|rs| - 1]];
      InsertByStart(rs[|rs| - 1], SortByStart(rs[..|rs| - 1]))
  }

  /** Range `k` ends at or before range `k + 1` starts. */
  predicate Apart(ms: seq<Range>, k: nat)
    requires k + 1 < |ms|
  {
    ms[k].end <= ms[k + 1].start
  }

  /** Consecutive ranges do not overlap; touching ones are allowed. */
  predicate Disjoint(ms: seq<Range>) {
    forall k: nat :: k + 1 < |ms| ==> Apart(ms, k)
  }

  predicate NonEmptyRanges(ms: seq<Range>) {
    forall k :: 0 <= k < |ms| ==> ms[k].start < ms[k].end
  }

  /** Position `q` lies strictly inside one of the first `n` ranges. */
  predicate InsideFirst(rs: seq<Range>, n: nat, q: int)
    requires n <= |rs|
  {
    exists j :: 0 <= j < n && rs[j].start < q < rs[j].end
  }

  predicate InsideSome(rs: seq<Range>, q: int) {
    InsideFirst(rs, |rs|, q)
  }

  /** Range `r` lies within one of the ranges `ms`. */
  predicate WithinSome(ms: seq<Range>, r: Range) {
    exists k :: 0 <= k < |ms| && ms[k].start <= r.start && r.end <= ms[k].end
  }

  /** Position `p` is the start (or end) of one of the first `n` ranges. */
  predicate StartOfFirst(rs: seq<Range>, n: nat, p: nat)
    requires n <= |rs|
  {
    exists j :: 0 <= j < n && rs[j].start == p
  }

  predicate EndOfFirst(rs: seq<Range>, n: nat, p: nat)
    requires n <= |rs|
  {
    exists j :: 0 <= j < n && rs[j].end == p
  }

  /** Input range `j` lies within one of the merged ranges. */
  predicate CoveredAt(ms: seq<Range>, rs: seq<Range>, j: nat)
    requires j < |rs|
  {
    WithinSome(ms, rs[j])
  }

  /** Merged range `k` starts at the start and ends at the end of some of the first `n` inputs. */
  predicate AnchoredAt(ms: seq<Range>, rs: seq<Range>, n: nat, k: nat)
    requires n <= |rs| && k < |ms|
  {
    StartOfFirst(rs, n, ms[k].start) && EndOfFirst(rs, n, ms[k].end)
  }

  /** What the merge loop keeps true after it has consumed `n` input ranges. */
  ghost predicate MergeInv(rs: seq<Range>, n: nat, ms: seq<Range>, cur: Range) {
    1 <= n <= |rs| && |ms| < n && cur.start < cur.end
    && NonEmptyRanges(ms) && Disjoint(ms + [cur])
    && (forall j: nat :: j < n ==> CoveredAt(ms + [cur], rs, j))
    && (forall k: nat :: k < |ms| + 1 ==> AnchoredAt(ms + [cur], rs, n, k))
    && (forall q :: InsideSome(ms + [cur], q) ==> InsideFirst(rs, n, q))
    && (forall k :: n <= k < |rs| ==> cur.start <= rs[k].start)
  }

  lemma MergeStart(rs: seq<Range>)
    requires SortedByStart(rs) && NonEmptyRanges(rs) && rs != []
    ensures MergeInv(rs, 1, [], rs[0])
  {
    assert [] + [rs[0]] == [rs[0]];
    assert [rs[0]][0] == rs[0];
    assert CoveredAt([rs[0]], rs, 0);
    assert AnchoredAt([rs[0]], rs, 1, 0);
    forall q | InsideSome([rs[0]], q) ensures InsideFirst(rs, 1, q) {
    }
  }

  /** The next range overlaps the current one: extend the current end. */
  lemma MergeExtend(rs: seq<Range>, n: nat, ms: seq<Range>, cur: Range)
    requires MergeInv(rs, n, ms, cur) && n < |rs| && rs[n].start < cur.end
    ensures MergeInv(rs, n + 1, ms, Range(cur.start, if cur.end < rs[n].end then rs[n].end else cur.end))
  {
    var next := rs[n];
    var cur' := Range(cur.start, if cur.end < next.end then next.end else cur.end);
    var old_all, all := ms + [cur], ms + [cur'];
    assert forall k :: 0 <= k < |ms| ==> all[k] == old_all[k];
    assert all[|ms|] == cur' && old_all[|ms|] == cur;
    assert Disjoint(all) by {
      forall k: nat | k + 1 < |all| ensures Apart(all, k) {
        assert Apart(old_all, k);
      }
    }
    forall j: nat | j < n + 1 ensures CoveredAt(all, rs, j) {
      if j < n {
        assert CoveredAt(old_all, rs, j);
        var k :| 0 <= k < |old_all| && old_all[k].start <= rs[j].start && rs[j].end <= old_all[k].end;
        assert all[k].start <= rs[j].start && rs[j].end <= all[k].end;
      } else {
        assert all[|ms|].start <= rs[j].start && rs[j].end <= all[|ms|].end;
      }
    }
    var n1 := n + 1;
    forall k: nat | k < |ms| + 1 ensures AnchoredAt(all, rs, n1, k) {
      assert AnchoredAt(old_all, rs, n, k);
      if k == |ms| && cur.end < next.end {
        assert rs[n].end == all[k].end;
      }
    }
    forall q | InsideSome(all, q) ensures InsideFirst(rs, n + 1, q) {
      var k :| 0 <= k < |all| && all[k].start < q < all[k].end;
      if k < |ms| || q < cur.end {
        assert InsideSome(old_all, q) by {
          assert old_all[k].start < q < old_all[k].end;
        }
      } else {
        assert rs[n].start < q < rs[n].end;
      }
    }
  }

  /** The next range starts at or after the current end: close the current range. */
  lemma MergeClose(rs: seq<Range>, n: nat, ms: seq<Range>, cur: Range)
    requires SortedByStart(rs) && NonEmptyRanges(rs)
    requires MergeInv(rs, n, ms, cur) && n < |rs| && cur.end <= rs[n].start
    ensures MergeInv(rs, n + 1, ms + [cur], rs[n])
  {
    var next := rs[n];
    var old_all, all := ms + [cur], ms + [cur] + [next];
    assert forall k :: 0 <= k < |old_all| ==> all[k] == old_all[k];
    assert NonEmptyRanges(ms + [cur]) by {
      forall k | 0 <= k < |ms| + 1 ensures (ms + [cur])[k].start < (ms + [cur])[k].end {
        if k < |ms| { assert (ms + [cur])[k] == ms[k]; }
      }
    }
    assert Disjoint(all) by {
      forall k: nat | k + 1 < |all| ensures Apart(all, k) {
        if k + 1 < |old_all| {
          assert Apart(old_all, k);
        }
      }
    }
    forall j: nat | j < n + 1 ensures CoveredAt(all, rs, j) {
      if j < n {
        assert CoveredAt(old_all, rs, j);
        var k :| 0 <= k < |old_all| && old_all[k].start <= rs[j].start && rs[j].end <= old_all[k].end;
        assert all[k].start <= rs[j].start && rs[j].end <= all[k].end;
      } else {
        assert all[|old_all|].start <= rs[j].start && rs[j].end <= all[|old_all|].end;
      }
    }
    var n1 := n + 1;
    forall k: nat | k < |ms + [cur]| + 1 ensures AnchoredAt(all, rs, n1, k) {
      if k < |old_all| {
        assert AnchoredAt(old_all, rs, n, k);
      } else {
        assert rs[n].start == all[k].start && rs[n].end == all[k].end;
      }
    }
    forall q | InsideSome(all, q) ensures InsideFirst(rs, n + 1, q) {
      var k :| 0 <= k < |all| && all[k].start < q < all[k].end;
      if k < |old_all| {
        assert InsideSome(old_all, q) by {
          assert old_all[k].start < q < old_all[k].end;
        }
      } else {
        assert rs[n].start < q < rs[n].end;
      }
    }
    forall k | n + 1 <= k < |rs| ensures next.start <= rs[k].start {
    }
  }

  /**
   * The merge from range `n` on, with `cur` the range being grown: a range
   * starting before `cur` ends is fused into it, any other one closes `cur`
   * and becomes the range being grown.
   */
  function MergeFrom(rs: seq<Range>, n: nat, cur: Range): seq<Range>
    requires n <= |rs|
    decreases |rs| - n
  {
    if n == |rs| then [cur]
    else if rs[n].start < cur.end then
      MergeFrom(rs, n + 1, Range(cur.start, if cur.end < rs[n].end then rs[n].end else cur.end))
    else [cur] + MergeFrom(rs, n + 1, rs[n])
  }

  /** The merged list of a list of ranges sorted by start. */
  function Merge(rs: seq<Range>): seq<Range> {
    if rs == [] then [] else MergeFrom(rs, 1, rs[0])
  }

  /** Merging ranges inside the text gives ranges inside the text. */
  lemma {:induction false} MergeFromInText(text: string, rs: seq<Range>, n: nat, cur: Range)
    requires InText(text, rs) && n <= |rs| && cur.start <= cur.end <= |text|
    ensures InText(text, MergeFrom(rs, n, cur))
    decreases |rs| - n
  {
    if n < |rs| {
      if rs[n].start < cur.end {
        MergeFromInText(text, rs, n + 1, Range(cur.start, if cur.end < rs[n].end then rs[n].end else cur.end));
      } else {
        MergeFromInText(text, rs, n + 1, rs[n]);
      }
    }
  }

  lemma MergeInText(text: string, rs: seq<Range>)
    requires InText(text, rs)
    ensures InText(text, Merge(rs))
  {
    if rs != [] {
      MergeFromInText(text, rs, 1, rs[0]);
    }
  }

  /** The protected ranges: the non-blank matches, sorted by start, then merged. */
  function Protected(text: string, matches: seq<Range>): (ms: seq<Range>)
    requires InText(text, matches)
    ensures InText(text, ms)
  {
    var kept := NonBlank(text, matches);
    var sorted := SortByStart(kept);
    SortedInText(text, kept, sorted);
    MergeInText(text, sorted);
    Merge(sorted)
  }

  /**
   * The merge of `_split_into_units`: overlapping ranges (next start < current
   * end) are fused; ranges that only touch are kept apart.
   */
  method MergeRanges(rs: seq<Range>) returns (ms: seq<Range>)
    requires SortedByStart(rs) && NonEmptyRanges(rs)
    ensures ms == Merge(rs)
    ensures |ms| <= |rs| && (ms == [] <==> rs == [])
    ensures NonEmptyRanges(ms) && Disjoint(ms)
    ensures forall j: nat :: j < |rs| ==> CoveredAt(ms, rs, j)
    ensures forall k: nat :: k < |ms| ==> AnchoredAt(ms, rs, |rs|, k)
    ensures forall q :: InsideSome(ms, q) ==> InsideSome(rs, q)
  {
    if rs == [] {
      return [];
    }
    ms := [];
    var cur := rs[0];
    MergeStart(rs);
    var i := 1;
    while i < |rs|
      invariant MergeInv(rs, i, ms, cur)
      invariant ms + MergeFrom(rs, i, cur) == Merge(rs)
    {
      if rs[i].start < cur.end {
        MergeExtend(rs, i, ms, cur);
        cur := Range(cur.start, if cur.end < rs[i].end then rs[i].end else cur.end);
      } else {
        MergeClose(rs, i, ms, cur);
        assert ms + MergeFrom(rs, i, cur) == (ms + [cur]) + MergeFrom(rs, i + 1, rs[i]);
        ms, cur := ms + [cur], rs[i];
      }
      i := i + 1;
    }
    ms := ms + [cur];
  }

  /**
   * The protected ranges of `_split_into_units`: non-blank matches, sorted by
   * start, then merged.
   */
  lemma SameMembers(a: seq<Range>, b: seq<Range>, r: Range)
    requires multiset(a) == multiset(b)
    ensures r in a <==> r in b
  {
    assert r in a <==> r in multiset(a);
    assert r in b <==> r in multiset(b);
  }

  /** Sorting keeps the ranges non-empty and inside the text. */
  lemma SortedInText(text: string, kept: seq<Range>, sorted: seq<Range>)
    requires multiset(sorted) == multiset(kept)
    requires forall k :: 0 <= k < |kept| ==> kept[k].start < kept[k].end <= |text|
    ensures NonEmptyRanges(sorted) && InText(text, sorted)
  {
    forall k | 0 <= k < |sorted| ensures sorted[k].start < sorted[k].end <= |text| {
      SameMembers(sorted, kept, sorted[k]);
      assert sorted[k] in kept;
    }
  }

  /** Merged ranges start and end where inputs do, so they stay inside the text. */
  lemma MergedInText(text: string, sorted: seq<Range>, ms: seq<Range>)
    requires InText(text, sorted)
    requires forall k: nat :: k < |ms| ==> AnchoredAt(ms, sorted, |sorted|, k)
    ensures forall k :: 0 <= k < |ms| ==> ms[k].end <= |text|
  {
    forall k | 0 <= k < |ms| ensures ms[k].end <= |text| {
      assert AnchoredAt(ms, sorted, |sorted|, k);
    }
  }

  /** A range of the sorted list is within a merged range. */
  lemma KeptCovered(kept: seq<Range>, sorted: seq<Range>, ms: seq<Range>, r: Range)
    requires multiset(sorted) == multiset(kept) && r in kept
    requires forall j: nat :: j < |sorted| ==> CoveredAt(ms, sorted, j)
    ensures WithinSome(ms, r)
  {
    SameMembers(sorted, kept, r);
    var i :| 0 <= i < |sorted| && sorted[i] == r;
    assert CoveredAt(ms, sorted, i);
  }

  /** Positions inside the sorted ranges are inside the kept ones. */
  lemma InsideSorted(kept: seq<Range>, sorted: seq<Range>, q: int)
    requires multiset(sorted) == multiset(kept) && InsideSome(sorted, q)
    ensures InsideSome(kept, q)
  {
    var j :| 0 <= j < |sorted| && sorted[j].start < q < sorted[j].end;
    SameMembers(sorted, kept, sorted[j]);
    var i :| 0 <= i < |kept| && kept[i] == sorted[j];
  }

  method ProtectedRanges(text: string, matches: seq<Range>) returns (ms: seq<Range>)
    requires InText(text, matches)
    ensures ms == Protected(text, matches)
    ensures NonEmptyRanges(ms) && Disjoint(ms) && InText(text, ms)
    ensures forall j :: 0 <= j < |matches| && HasNonSpace(text[matches[j].start..matches[j].end]) ==>
      WithinSome(ms, matches[j])
    ensures forall q :: InsideSome(ms, q) ==> InsideSome(NonBlank(text, matches), q)
  {
    var kept := NonBlank(text, matches);
    var sorted := SortByStart(kept);
    SortedInText(text, kept, sorted);
    ms := MergeRanges(sorted);
    MergedInText(text, sorted, ms);
    forall j | 0 <= j < |matches| && HasNonSpace(text[matches[j].start..matches[j].end])
      ensures WithinSome(ms, matches[j])
    {
      KeptCovered(kept, sorted, ms, matches[j]);
    }
    forall q | InsideSome(ms, q) ensures InsideSome(kept, q) {
      InsideSorted(kept, sorted, q);
    }
  }

  /** Unit `j` of `units` is exactly the text of range `r`, at the range's offset. */
  predicate UnitIs(units: seq<string>, j: int, text: string, r: Range)
    requires r.start <= r.end <= |text|
  {
    0 <= j < |units| && Offset(units, j) == r.start && units[j] == text[r.start..r.end]
  }

  /**
   * The splitting loop of `_split_into_units`: the text before each protected
   * range is split on the separators and the range itself becomes one unit.
   */
  /** Range `r` is, character for character, one of the units. */
  predicate HasUnit(units: seq<string>, text: string, r: Range)
    requires r.start <= r.end <= |text|
  {
    exists j :: 0 <= j < |units| && UnitIs(units, j, text, r)
  }

  /** One step of the splitting loop: the gap units, then the protected range as one unit. */
  lemma AppendRangeUnit(before: seq<string>, gap: seq<string>, text: string, lastEnd: nat, r: Range)
    requires lastEnd <= r.start <= r.end <= |text|
    requires Concat(before) == text[..lastEnd]
    requires Concat(gap) == text[lastEnd..r.start]
    ensures Concat(before + gap + [text[r.start..r.end]]) == text[..r.end]
    ensures UnitIs(before + gap + [text[r.start..r.end]], |before + gap|, text, r)
  {
    var mid := before + gap;
    var units := mid + [text[r.start..r.end]];
    ConcatAppend(before, gap);
    assert text[..r.start] == text[..lastEnd] + text[lastEnd..r.start];
    ConcatAppend(mid, [text[r.start..r.end]]);
    assert text[..r.end] == text[..r.start] + text[r.start..r.end];
    assert units[..|mid|] == mid;
  }

  /** The loop's facts about the units so far, for the first `i` ranges at offsets `pos`. */
  predicate UnitsSoFar(units: seq<string>, text: string, lastEnd: nat, ranges: seq<Range>, i: nat, pos: seq<int>)
    requires InText(text, ranges) && i <= |ranges| && lastEnd <= |text|
  {
    Concat(units) == text[..lastEnd] &&
    (forall k :: 0 <= k < |units| ==> units[k] != []) &&
    |pos| == i && forall k :: 0 <= k < i ==> UnitIs(units, pos[k], text, ranges[k])
  }

  /** Adding the gap units and the range's unit keeps every earlier range where it was. */
  lemma UnitsStep(units: seq<string>, gap: seq<string>, text: string, lastEnd: nat,
                  ranges: seq<Range>, i: nat, pos: seq<int>)
    requires NonEmptyRanges(ranges) && InText(text, ranges) && i < |ranges|
    requires lastEnd <= ranges[i].start
    requires UnitsSoFar(units, text, lastEnd, ranges, i, pos)
    requires Concat(gap) == text[lastEnd..ranges[i].start] && forall k :: 0 <= k < |gap| ==> gap[k] != []
    ensures UnitsSoFar(units + gap + [text[ranges[i].start..ranges[i].end]], text, ranges[i].end, ranges, i + 1,
                       pos + [|units + gap|])
  {
    var r := ranges[i];
    var piece := [text[r.start..r.end]];
    var units' := units + gap + piece;
    AppendRangeUnit(units, gap, text, lastEnd, r);
    assert units' == units + (gap + piece);
    forall k | 0 <= k < i ensures UnitIs(units', pos[k], text, ranges[k]) {
      UnitIsPrefix(units, gap + piece, pos[k], text, ranges[k]);
    }
    var pos' := pos + [|units + gap|];
    assert forall k :: 0 <= k < i ==> pos'[k] == pos[k];
    forall k | 0 <= k < |units'| ensures units'[k] != [] {
      if k < |units| { assert units'[k] == units[k]; }
      else if k < |units| + |gap| { assert units'[k] == gap[k - |units|]; }
    }
  }

  /** The units after the last range complete the text and move no range. */
  lemma UnitsTail(units: seq<string>, pieces: seq<string>, text: string, lastEnd: nat,
                  ranges: seq<Range>, pos: seq<int>)
    requires InText(text, ranges) && lastEnd <= |text|
    requires UnitsSoFar(units, text, lastEnd, ranges, |ranges|, pos)
    requires Concat(pieces) == text[lastEnd..] && forall k :: 0 <= k < |pieces| ==> pieces[k] != []
    ensures UnitsSoFar(units + pieces, text, |text|, ranges, |ranges|, pos)
  {
    ConcatAppend(units, pieces);
    assert text == text[..lastEnd] + text[lastEnd..];
    forall k | 0 <= k < |ranges| ensures UnitIs(units + pieces, pos[k], text, ranges[k]) {
      UnitIsPrefix(units, pieces, pos[k], text, ranges[k]);
    }
    forall k | 0 <= k < |units + pieces| ensures (units + pieces)[k] != [] {
      if k < |units| { assert (units + pieces)[k] == units[k]; }
      else { assert (units + pieces)[k] == pieces[k - |units|]; }
    }
  }

  /** The units of the gap `text[lo..hi]`: none when it is empty. */
  function GapBefore(text: string, lo: nat, hi: nat, seps: seq<string>): (r: seq<string>)
    requires lo <= |text| && hi <= |text|
    ensures lo <= hi ==> Concat(r) == text[lo..hi]
    ensures forall k :: 0 <= k < |r| ==> r[k] != []
  {
    if hi > lo then GapUnits(text[lo..hi], seps) else []
  }

  /** Where the text after the first `i` ranges starts. */
  function EndOf(ranges: seq<Range>, i: nat): nat
    requires i <= |ranges|
  {
    if i == 0 then 0 else ranges[i - 1].end
  }

  /**
   * The units for the first `i` ranges: for each range, the gap before it
   * split on the separators (its non-empty pieces), then the range as one unit.
   */
  function UnitsUpTo(text: string, ranges: seq<Range>, seps: seq<string>, i: nat): seq<string>
    requires InText(text, ranges) && i <= |ranges|
  {
    if i == 0 then []
    else
      var r := ranges[i - 1];
      UnitsUpTo(text, ranges, seps, i - 1) + GapBefore(text, EndOf(ranges, i - 1), r.start, seps)
      + [text[r.start..r.end]]
  }

  /** The units around `ranges`: those of every range, then the rest of the text split the same way. */
  function UnitsAroundRanges(text: string, ranges: seq<Range>, seps: seq<string>): seq<string>
    requires InText(text, ranges)
  {
    UnitsUpTo(text, ranges, seps, |ranges|) + GapBefore(text, EndOf(ranges, |ranges|), |text|, seps)
  }

  /** The units `_split_into_units` cuts `text` into, around its protected ranges. */
  function Units(text: string, matches: seq<Range>, seps: seq<string>): seq<string>
    requires InText(text, matches)
  {
    UnitsAroundRanges(text, Protected(text, matches), seps)
  }

  /** Without protected structures the units are the separator split of the whole text. */
  lemma UnitsWithoutMatches(text: string, seps: seq<string>)
    ensures Units(text, [], seps) == if text == [] then [] else GapUnits(text, seps)
  {
    assert Protected(text, []) == [];
    assert text[0..|text|] == text;
  }

  method UnitsAround(text: string, ranges: seq<Range>, seps: seq<string>) returns (units: seq<string>)
    requires NonEmptyRanges(ranges) && Disjoint(ranges) && InText(text, ranges)
    ensures Concat(units) == text
    ensures forall k :: 0 <= k < |units| ==> units[k] != []
    ensures forall k :: 0 <= k < |ranges| ==> HasUnit(units, text, ranges[k])
    ensures units == UnitsAroundRanges(text, ranges, seps)
  {
    units := [];
    ghost var pos: seq<int> := [];
    var lastEnd := 0;
    var i := 0;
    while i < |ranges|
      invariant 0 <= i <= |ranges|
      invariant lastEnd == EndOf(ranges, i) && lastEnd <= |text|
      invariant UnitsSoFar(units, text, lastEnd, ranges, i, pos)
      invariant units == UnitsUpTo(text, ranges, seps, i)
    {
      var r := ranges[i];
      assert lastEnd <= r.start by {
        if i > 0 { assert Apart(ranges, i - 1); }
      }
      var gap := GapBefore(text, lastEnd, r.start, seps);
      UnitsStep(units, gap, text, lastEnd, ranges, i, pos);
      pos := pos + [|units + gap|];
      units := units + gap + [text[r.start..r.end]];
      lastEnd := r.end;
      i := i + 1;
    }
    var pieces := GapBefore(text, lastEnd, |text|, seps);
    UnitsTail(units, pieces, text, lastEnd, ranges, pos);
    units := units + pieces;
    assert text[..|text|] == text;
    forall k | 0 <= k < |ranges| ensures HasUnit(units, text, ranges[k]) {
      assert UnitIs(units, pos[k], text, ranges[k]);
    }
  }

  /**
   * `_split_into_units`: the units concatenate to the text, none is empty, and
   * every non-blank protected match lies inside a single unit.
   */
  method SplitIntoUnits(text: string, matches: seq<Range>, seps: seq<string>) returns (units: seq<string>)
    requires InText(text, matches)
    ensures Concat(units) == text
    ensures forall k :: 0 <= k < |units| ==> units[k] != []
    ensures forall i :: 0 <= i < |matches| && HasNonSpace(text[matches[i].start..matches[i].end]) ==>
      exists j :: 0 <= j < |units| && Offset(units, j) <= matches[i].start && matches[i].end <= Offset(units, j) + |units[j]|
    ensures units == Units(text, matches, seps)
  {
    var ranges := ProtectedRanges(text, matches);
    units := UnitsAround(text, ranges, seps);
    forall i | 0 <= i < |matches| && HasNonSpace(text[matches[i].start..matches[i].end])
      ensures exists j :: 0 <= j < |units| && Offset(units, j) <= matches[i].start && matches[i].end <= Offset(units, j) + |units[j]|
    {
      var r := matches[i];
      assert WithinSome(ranges, r);
      var k :| 0 <= k < |ranges| && ranges[k].start <= r.start && r.end <= ranges[k].end;
      var j :| 0 <= j < |units| && UnitIs(units, j, text, ranges[k]);
    }
  }
}
