/**
 * The chunking half of `BaseParser`: packing the units of a text into
 * size-bounded chunks that carry a unit-aligned overlap, the `max_chunks`
 * cut, the shared OCR-engine latch and the image records taken from a chunk.
 */
module Chunker {
  import opened Wrappers
  import opened PyStr
  import opened TextUnits
  import OcrEngine

  /**
   * An image attached to a chunk: the dictionary keys the gRPC layer reads,
   * each of which may be missing.
   */
  datatype ChunkImage = ChunkImage(
    cosUrl: Option<string>, caption: Option<string>, ocrText: Option<string>,
    originalUrl: Option<string>, start: Option<int>, end: Option<int>)

  /** `Chunk`: its text, its sequence number and its character offsets in the parsed text. */
  datatype Chunk = Chunk(content: string, seqNo: int, start: int, end: int, images: seq<ChunkImage>)

  /** The units `lo` (inclusive) to `hi` (exclusive) of a unit list. */
  datatype UnitSpan = UnitSpan(lo: nat, hi: nat)

  function Min(a: int, b: int): int {
    if a <= b then a else b
  }

  /** Every character of `u` is itself one of the separators (`uu in self.separators`). */
  predicate AllSep(u: string, seps: seq<string>) {
    forall c :: c in u ==> [c] in seps
  }

  /** Chunk `c` is chunk number `k` and holds exactly the units of `sp`, at their offsets. */
  predicate ChunkOf(units: seq<string>, sp: UnitSpan, k: nat, c: Chunk) {
    sp.lo < sp.hi <= |units|
    && c == Chunk(Concat(units[sp.lo..sp.hi]), k, Offset(units, sp.lo), Offset(units, sp.hi), [])
  }

  /** Unit `j` joined the chunk that starts at unit `lo` without closing it. */
  predicate FitsAt(units: seq<string>, lo: nat, j: nat, chunkSize: int) {
    lo <= j < |units| && (j == lo || Offset(units, j + 1) - Offset(units, lo) <= chunkSize)
  }

  /** Every unit of `sp` from unit `first` on joined it without closing it. */
  predicate FilledFrom(units: seq<string>, sp: UnitSpan, first: nat, chunkSize: int) {
    forall j :: first <= j < sp.hi ==> FitsAt(units, sp.lo, j, chunkSize)
  }

  /** The chunk of `sp` was closed at unit `sp.hi`, which would have taken it past `chunkSize`. */
  predicate ClosedAt(units: seq<string>, sp: UnitSpan, chunkSize: int) {
    sp.lo <= sp.hi < |units| && Offset(units, sp.hi + 1) - Offset(units, sp.lo) > chunkSize
  }

  /**
   * Walking the units of `sp` backwards, the longest run that fits in
   * `target` starts at unit `g`: the next unit back would not fit.
   */
  predicate GreedyCut(units: seq<string>, sp: UnitSpan, g: nat, target: int) {
    sp.lo <= g <= sp.hi <= |units|
    && Offset(units, sp.hi) - Offset(units, g) <= target
    && (g == sp.lo || Offset(units, sp.hi) - Offset(units, g - 1) > target)
  }

  /** Units `g` to `s` consist of separator characters only, and unit `s` (if before `hi`) does not. */
  predicate SkipsSeparators(units: seq<string>, g: nat, s: nat, hi: nat, seps: seq<string>) {
    g <= s <= hi <= |units|
    && (forall j :: g <= j < s ==> AllSep(units[j], seps))
    && (s == hi || !AllSep(units[s], seps))
  }

  /**
   * After closing the chunk of `sp`, the next chunk starts at unit `next`:
   * with no overlap right after it, otherwise at the greedy cut for
   * `min(chunk_overlap, len(chunk))` moved past the leading separator units.
   */
  predicate CarriedFrom(units: seq<string>, sp: UnitSpan, next: nat, overlap: int, seps: seq<string>) {
    sp.lo <= sp.hi <= |units|
    && if overlap <= 0 then next == sp.hi
       else exists g: nat :: sp.lo <= g <= sp.hi && GreedyCut(units, sp, g, Min(overlap, Offset(units, sp.hi) - Offset(units, sp.lo)))
                           && SkipsSeparators(units, g, next, sp.hi, seps)
  }

  /** Chunk `k` was closed at the unit that chunk `k + 1` went on with, after the carried units. */
  predicate StepAt(units: seq<string>, spans: seq<UnitSpan>, k: nat, chunkSize: int, overlap: int, seps: seq<string>)
    requires k + 1 < |spans|
  {
    ClosedAt(units, spans[k], chunkSize)
    && CarriedFrom(units, spans[k], spans[k + 1].lo, overlap, seps)
    && spans[k].hi < spans[k + 1].hi
  }

  /** The first unit of chunk `k` that was added by the packing loop, not carried over. */
  function FirstAdded(spans: seq<UnitSpan>, k: nat): nat
    requires k < |spans|
  {
    if k == 0 then 0 else spans[k - 1].hi + 1
  }

  predicate FilledAt(units: seq<string>, spans: seq<UnitSpan>, k: nat, chunkSize: int)
    requires k < |spans|
  {
    FilledFrom(units, spans[k], FirstAdded(spans, k), chunkSize)
  }

  /**
   * The chunks `chunk_text` builds from `units`: chunk `k` holds the units
   * of `spans[k]`; the first starts at unit 0 and the last ends at the last
   * unit; each chunk is closed only at a unit that would take it past
   * `chunkSize`; each chunk after the first starts with the overlap carried
   * from its predecessor and goes on with the unit that closed it.
   */
  ghost predicate Packed(units: seq<string>, spans: seq<UnitSpan>, chunks: seq<Chunk>,
                         chunkSize: int, overlap: int, seps: seq<string>) {
    |spans| == |chunks|
    && (chunks == [] <==> units == [])
    && (forall k :: 0 <= k < |chunks| ==> ChunkOf(units, spans[k], k, chunks[k]))
    && (chunks != [] ==> spans[0].lo == 0 && spans[|spans| - 1].hi == |units|)
    && (forall k: nat :: k + 1 < |spans| ==> StepAt(units, spans, k, chunkSize, overlap, seps))
    && (forall k :: 0 <= k < |spans| ==> FilledAt(units, spans, k, chunkSize))
  }

  /**
   * The overlap walk over the running chunk `cur`, which is units `a..i`:
   * units are taken from its end while the total stays within `target`,
   * stopping at the first one that does not fit.
   */
  method CarriedSuffix(cur: seq<string>, target: int, ghost units: seq<string>, ghost a: nat, ghost i: nat)
    returns (carried: seq<string>, size: int)
    requires a <= i <= |units| && cur == units[a..i] && target >= 0
    ensures a <= i - |carried| && carried == units[i - |carried|..i]
    ensures size == Offset(units, i) - Offset(units, i - |carried|)
    ensures GreedyCut(units, UnitSpan(a, i), i - |carried|, target)
  {
    carried := [];
    size := 0;
    var j := |cur|;
    while j > 0
      invariant 0 <= j <= |cur|
      invariant carried == units[a + j..i]
      invariant size == Offset(units, i) - Offset(units, a + j)
      invariant size <= target
    {
      var u := cur[j - 1];
      assert u == units[a + j - 1];
      OffsetStep(units, a + j - 1);
      if size + |u| > target {
        return;
      }
      assert units[a + j - 1..i] == [u] + carried;
      carried := [u] + carried;
      size := size + |u|;
      j := j - 1;
    }
  }

  /** The inner character loop: `u` consists of separator characters only. */
  method IsAllSeparators(u: string, seps: seq<string>) returns (all: bool)
    ensures all == AllSep(u, seps)
  {
    var k := 0;
    while k < |u|
      invariant 0 <= k <= |u|
      invariant forall i :: 0 <= i < k ==> [u[i]] in seps
    {
      if [u[k]] !in seps {
        return false;
      }
      k := k + 1;
    }
    return true;
  }

  /**
   * Drops the leading units of `carried`, which is units `g..i`, that
   * consist of separator characters only.
   */
  method DropSeparators(carried: seq<string>, size: int, seps: seq<string>, ghost units: seq<string>, ghost g: nat, ghost i: nat)
    returns (kept: seq<string>, keptSize: int)
    requires g <= i <= |units| && carried == units[g..i]
    requires size == Offset(units, i) - Offset(units, g)
    ensures g <= i - |kept| && kept == units[i - |kept|..i]
    ensures SkipsSeparators(units, g, i - |kept|, i, seps)
    ensures keptSize == Offset(units, i) - Offset(units, i - |kept|)
  {
    var startIndex := 0;
    keptSize := size;
    var k := 0;
    while k < |carried|
      invariant 0 <= k <= |carried| && startIndex == k
      invariant forall j :: g <= j < g + k ==> AllSep(units[j], seps)
      invariant keptSize == Offset(units, i) - Offset(units, g + k)
    {
      assert carried[k] == units[g + k];
      var all := IsAllSeparators(carried[k], seps);
      if !all {
        break;
      }
      OffsetStep(units, g + k);
      startIndex := k + 1;
      keptSize := keptSize - |carried[k]|;
      k := k + 1;
    }
    kept := carried[startIndex..];
    assert kept == units[g + startIndex..i];
  }

  /**
   * What the packing loop keeps true before it handles unit `i`: the closed
   * chunks so far, and the running chunk made of units `a..i`.
   */
  ghost predicate PackInv(units: seq<string>, i: nat, a: nat, spans: seq<UnitSpan>, chunks: seq<Chunk>,
                          chunkSize: int, overlap: int, seps: seq<string>) {
    a <= i <= |units|
    && |spans| == |chunks|
    && (forall k :: 0 <= k < |chunks| ==> ChunkOf(units, spans[k], k, chunks[k]))
    && (chunks == [] ==> a == 0)
    && (chunks != [] ==> spans[0].lo == 0)
    && (forall k: nat :: k + 1 < |spans| ==> StepAt(units, spans, k, chunkSize, overlap, seps))
    && (forall k :: 0 <= k < |spans| ==> FilledAt(units, spans, k, chunkSize))
    && (chunks != [] ==>
          var last := spans[|spans| - 1];
          ClosedAt(units, last, chunkSize) && CarriedFrom(units, last, a, overlap, seps) && last.hi <= i)
    && FilledFrom(units, UnitSpan(a, i), if chunks == [] then 0 else spans[|spans| - 1].hi + 1, chunkSize)
  }

  /** The last closed chunk ended before unit `i`. */
  predicate LastBefore(spans: seq<UnitSpan>, i: nat) {
    spans == [] || spans[|spans| - 1].hi < i
  }

  /** Appending the chunk `c` of `sp` keeps every chunk the one of its span. */
  lemma ExtendChunks(units: seq<string>, spans: seq<UnitSpan>, chunks: seq<Chunk>, sp: UnitSpan, c: Chunk)
    requires |spans| == |chunks|
    requires forall k :: 0 <= k < |chunks| ==> ChunkOf(units, spans[k], k, chunks[k])
    requires ChunkOf(units, sp, |chunks|, c)
    ensures forall k :: 0 <= k < |chunks| + 1 ==> ChunkOf(units, (spans + [sp])[k], k, (chunks + [c])[k])
  {
    forall k | 0 <= k < |chunks| + 1 ensures ChunkOf(units, (spans + [sp])[k], k, (chunks + [c])[k]) {
      if k < |chunks| { assert (spans + [sp])[k] == spans[k] && (chunks + [c])[k] == chunks[k]; }
    }
  }

  /** Appending `sp` after a closed last span that carries into it keeps every step. */
  lemma ExtendSteps(units: seq<string>, spans: seq<UnitSpan>, sp: UnitSpan, chunkSize: int, overlap: int, seps: seq<string>)
    requires forall k: nat :: k + 1 < |spans| ==> StepAt(units, spans, k, chunkSize, overlap, seps)
    requires spans != [] ==>
      ClosedAt(units, spans[|spans| - 1], chunkSize) && CarriedFrom(units, spans[|spans| - 1], sp.lo, overlap, seps)
      && spans[|spans| - 1].hi < sp.hi
    ensures forall k: nat :: k + 1 < |spans + [sp]| ==> StepAt(units, spans + [sp], k, chunkSize, overlap, seps)
  {
    var spans' := spans + [sp];
    forall k: nat | k + 1 < |spans'| ensures StepAt(units, spans', k, chunkSize, overlap, seps) {
      assert spans'[k] == spans[k];
      if k + 1 < |spans| {
        assert spans'[k + 1] == spans[k + 1];
        assert StepAt(units, spans, k, chunkSize, overlap, seps);
      }
    }
  }

  /** Appending `sp`, filled from the unit after the last span, keeps every span filled. */
  lemma ExtendFilled(units: seq<string>, spans: seq<UnitSpan>, sp: UnitSpan, chunkSize: int)
    requires forall k :: 0 <= k < |spans| ==> FilledAt(units, spans, k, chunkSize)
    requires FilledFrom(units, sp, if spans == [] then 0 else spans[|spans| - 1].hi + 1, chunkSize)
    ensures forall k :: 0 <= k < |spans| + 1 ==> FilledAt(units, spans + [sp], k, chunkSize)
  {
    var spans' := spans + [sp];
    forall k | 0 <= k < |spans'| ensures FilledAt(units, spans', k, chunkSize) {
      if k < |spans| {
        assert spans'[k] == spans[k];
        assert FirstAdded(spans', k) == FirstAdded(spans, k);
        assert FilledAt(units, spans, k, chunkSize);
      } else {
        assert FirstAdded(spans', k) == if spans == [] then 0 else spans[|spans| - 1].hi + 1;
      }
    }
  }

  /** Closing the running chunk `a..i` at unit `i`; the next one starts at unit `next`. */
  lemma CloseChunk(units: seq<string>, i: nat, a: nat, spans: seq<UnitSpan>, chunks: seq<Chunk>,
                   chunkSize: int, overlap: int, seps: seq<string>, c: Chunk, next: nat)
    requires PackInv(units, i, a, spans, chunks, chunkSize, overlap, seps)
    requires LastBefore(spans, i) && a < i
    requires ChunkOf(units, UnitSpan(a, i), |chunks|, c)
    requires ClosedAt(units, UnitSpan(a, i), chunkSize)
    requires CarriedFrom(units, UnitSpan(a, i), next, overlap, seps) && a <= next <= i
    ensures PackInv(units, i, next, spans + [UnitSpan(a, i)], chunks + [c], chunkSize, overlap, seps)
  {
    ExtendChunks(units, spans, chunks, UnitSpan(a, i), c);
    ExtendSteps(units, spans, UnitSpan(a, i), chunkSize, overlap, seps);
    ExtendFilled(units, spans, UnitSpan(a, i), chunkSize);
  }

  /** Adding unit `i` to the running chunk: right after a close, or when it fits. */
  lemma AddToChunk(units: seq<string>, i: nat, a: nat, spans: seq<UnitSpan>, chunks: seq<Chunk>,
                   chunkSize: int, overlap: int, seps: seq<string>)
    requires PackInv(units, i, a, spans, chunks, chunkSize, overlap, seps) && i < |units|
    requires (spans != [] && spans[|spans| - 1].hi == i) || (LastBefore(spans, i) && FitsAt(units, a, i, chunkSize))
    ensures PackInv(units, i + 1, a, spans, chunks, chunkSize, overlap, seps)
    ensures LastBefore(spans, i + 1)
  {
    var first := if chunks == [] then 0 else spans[|spans| - 1].hi + 1;
    assert FilledFrom(units, UnitSpan(a, i + 1), first, chunkSize) by {
      forall j | first <= j < i + 1 ensures FitsAt(units, a, j, chunkSize) {
        if j < i {
          assert FilledFrom(units, UnitSpan(a, i), first, chunkSize);
        }
      }
    }
  }

  /** The last running chunk, units `a..|units|`, completes the packing. */
  lemma FinishChunks(units: seq<string>, a: nat, spans: seq<UnitSpan>, chunks: seq<Chunk>,
                     chunkSize: int, overlap: int, seps: seq<string>, c: Chunk)
    requires PackInv(units, |units|, a, spans, chunks, chunkSize, overlap, seps)
    requires LastBefore(spans, |units|) && a < |units|
    requires ChunkOf(units, UnitSpan(a, |units|), |chunks|, c)
    ensures Packed(units, spans + [UnitSpan(a, |units|)], chunks + [c], chunkSize, overlap, seps)
  {
    ExtendChunks(units, spans, chunks, UnitSpan(a, |units|), c);
    ExtendSteps(units, spans, UnitSpan(a, |units|), chunkSize, overlap, seps);
    ExtendFilled(units, spans, UnitSpan(a, |units|), chunkSize);
  }

  /** The chunk of units `a..i` as `chunk_text` builds it from its running start. */
  lemma ChunkOfCurrent(units: seq<string>, a: nat, i: nat, k: nat, start: int)
    requires a < i <= |units| && start == Offset(units, a)
    ensures ChunkOf(units, UnitSpan(a, i), k,
      Chunk(Concat(units[a..i]), k, start, start + |Concat(units[a..i])|, []))
  {
    ConcatSlice(units, a, i);
  }

  lemma CarriedWitness(units: seq<string>, sp: UnitSpan, g: nat, next: nat, overlap: int, seps: seq<string>)
    requires overlap > 0 && sp.lo <= sp.hi <= |units|
    requires GreedyCut(units, sp, g, Min(overlap, Offset(units, sp.hi) - Offset(units, sp.lo)))
    requires SkipsSeparators(units, g, next, sp.hi, seps)
    ensures CarriedFrom(units, sp, next, overlap, seps)
  {
  }

  /** The overlap carried out of the running chunk `a..i` when it is closed. */
  method CarryOverlap(units: seq<string>, ghost a: nat, i: nat, current: seq<string>, overlap: int, seps: seq<string>)
    returns (kept: seq<string>, keptSize: int, ghost next: nat)
    requires a < i <= |units| && current == units[a..i] && overlap > 0
    ensures a <= next <= i && kept == units[next..i]
    ensures keptSize == Offset(units, i) - Offset(units, next)
    ensures CarriedFrom(units, UnitSpan(a, i), next, overlap, seps)
  {
    ConcatSlice(units, a, i);
    var target := Min(overlap, |Concat(current)|);
    var carried, carriedSize := CarriedSuffix(current, target, units, a, i);
    kept, keptSize := DropSeparators(carried, carriedSize, seps, units, i - |carried|, i);
    next := i - |kept|;
    CarriedWitness(units, UnitSpan(a, i), i - |carried|, next, overlap, seps);
  }

  /**
   * The closing branch of the packing loop: the running chunk becomes the
   * next chunk, and the running chunk restarts with the carried overlap.
   */
  method CloseRunning(units: seq<string>, i: nat, chunks: seq<Chunk>, current: seq<string>,
                      currentSize: int, currentStart: int, chunkSize: int, overlap: int, seps: seq<string>,
                      ghost spans: seq<UnitSpan>, ghost a: nat)
    returns (chunks': seq<Chunk>, current': seq<string>, currentSize': int, currentStart': int,
             ghost spans': seq<UnitSpan>, ghost a': nat)
    requires PackInv(units, i, a, spans, chunks, chunkSize, overlap, seps)
    requires LastBefore(spans, i) && a < i < |units|
    requires current == units[a..i]
    requires currentSize == Offset(units, i) - Offset(units, a)
    requires currentStart == Offset(units, a)
    requires currentSize + |units[i]| > chunkSize
    ensures PackInv(units, i, a', spans', chunks', chunkSize, overlap, seps)
    ensures spans' != [] && spans'[|spans'| - 1].hi == i
    ensures current' == units[a'..i]
    ensures currentSize' == Offset(units, i) - Offset(units, a')
    ensures currentStart' == Offset(units, a')
  {
    OffsetStep(units, i);
    var content := Concat(current);
    var c := Chunk(content, |chunks|, currentStart, currentStart + |content|, []);
    ChunkOfCurrent(units, a, i, |chunks|, currentStart);
    ghost var next: nat;
    if overlap > 0 {
      current', currentSize', next := CarryOverlap(units, a, i, current, overlap, seps);
      currentStart' := currentStart + |content| - currentSize';
    } else {
      next := i;
      assert CarriedFrom(units, UnitSpan(a, i), next, overlap, seps);
      current' := [];
      currentSize' := 0;
      currentStart' := currentStart + |content|;
    }
    CloseChunk(units, i, a, spans, chunks, chunkSize, overlap, seps, c, next);
    chunks' := chunks + [c];
    spans' := spans + [UnitSpan(a, i)];
    a' := next;
  }

  lemma SliceGrow(units: seq<string>, a: nat, i: nat)
    requires a <= i < |units|
    ensures units[a..i + 1] == units[a..i] + [units[i]]
  {
  }

  /**
   * The state of the packing loop before unit `i`: the closed chunks and
   * the running chunk, units `a..i`, with its size and its start offset.
   */
  ghost predicate Packing(units: seq<string>, i: nat, a: nat, spans: seq<UnitSpan>, chunks: seq<Chunk>,
                          current: seq<string>, currentSize: int, currentStart: int,
                          chunkSize: int, overlap: int, seps: seq<string>) {
    PackInv(units, i, a, spans, chunks, chunkSize, overlap, seps)
    && LastBefore(spans, i)
    && (i == 0 ==> a == 0)
    && (i > 0 ==> a < i)
    && current == units[a..i]
    && currentSize == Offset(units, i) - Offset(units, a)
    && currentStart == Offset(units, a)
  }

  /**
   * One round of the packing loop: unit `i` closes the running chunk when
   * it would take it past `chunkSize`, and then joins the running chunk.
   */
  method PackStep(units: seq<string>, i: nat, chunks: seq<Chunk>, current: seq<string>,
                  currentSize: int, currentStart: int, chunkSize: int, overlap: int, seps: seq<string>,
                  ghost spans: seq<UnitSpan>, ghost a: nat)
    returns (chunks': seq<Chunk>, current': seq<string>, currentSize': int, currentStart': int,
             ghost spans': seq<UnitSpan>, ghost a': nat)
    requires i < |units|
    requires Packing(units, i, a, spans, chunks, current, currentSize, currentStart, chunkSize, overlap, seps)
    ensures Packing(units, i + 1, a', spans', chunks', current', currentSize', currentStart', chunkSize, overlap, seps)
  {
    var unit := units[i];
    OffsetStep(units, i);
    chunks', current', currentSize', currentStart', spans', a' := chunks, current, currentSize, currentStart, spans, a;
    if currentSize + |unit| > chunkSize && current != [] {
      chunks', current', currentSize', currentStart', spans', a' :=
        CloseRunning(units, i, chunks, current, currentSize, currentStart, chunkSize, overlap, seps, spans, a);
    }
    AddToChunk(units, i, a', spans', chunks', chunkSize, overlap, seps);
    SliceGrow(units, a', i);
    current' := current' + [unit];
    currentSize' := currentSize' + |unit|;
  }

  /**
   * The packing loop of `chunk_text`: a running chunk of units is closed
   * when the next unit would take it past `chunkSize`, and the next chunk
   * starts with the carried overlap.
   */
  method PackUnits(units: seq<string>, chunkSize: int, overlap: int, seps: seq<string>)
    returns (chunks: seq<Chunk>, ghost spans: seq<UnitSpan>)
    ensures Packed(units, spans, chunks, chunkSize, overlap, seps)
  {
    chunks := [];
    spans := [];
    var current: seq<string> := [];
    var currentSize := 0;
    var currentStart := 0;
    ghost var a: nat := 0;
    var i := 0;
    while i < |units|
      invariant i <= |units|
      invariant Packing(units, i, a, spans, chunks, current, currentSize, currentStart, chunkSize, overlap, seps)
    {
      chunks, current, currentSize, currentStart, spans, a :=
        PackStep(units, i, chunks, current, currentSize, currentStart, chunkSize, overlap, seps, spans, a);
      i := i + 1;
    }
    if current != [] {
      var content := Concat(current);
      var c := Chunk(content, |chunks|, currentStart, currentStart + |content|, []);
      ChunkOfCurrent(units, a, i, |chunks|, currentStart);
      FinishChunks(units, a, spans, chunks, chunkSize, overlap, seps, c);
      chunks := chunks + [c];
      spans := spans + [UnitSpan(a, i)];
    }
  }

  /** Offsets never decrease along the unit list. */
  lemma OffsetMono(units: seq<string>, x: nat, y: nat)
    requires x <= y <= |units|
    ensures Offset(units, x) <= Offset(units, y)
  {
    ConcatSlice(units, x, y);
  }

  /** Every chunk is the slice of the text between its offsets, and is numbered by its position. */
  lemma ChunksAreSlices(units: seq<string>, spans: seq<UnitSpan>, chunks: seq<Chunk>,
                        chunkSize: int, overlap: int, seps: seq<string>, k: nat)
    requires Packed(units, spans, chunks, chunkSize, overlap, seps) && k < |chunks|
    ensures chunks[k].seqNo == k && chunks[k].images == []
    ensures 0 <= chunks[k].start <= chunks[k].end <= |Concat(units)|
    ensures chunks[k].end == chunks[k].start + |chunks[k].content|
    ensures chunks[k].content == Concat(units)[chunks[k].start..chunks[k].end]
  {
    assert ChunkOf(units, spans[k], k, chunks[k]);
    ConcatSlice(units, spans[k].lo, spans[k].hi);
  }

  /** The contents of the chunks, in order. */
  function Contents(chunks: seq<Chunk>): (r: seq<string>)
    ensures |r| == |chunks| && forall k :: 0 <= k < |r| ==> r[k] == chunks[k].content
  {
    if chunks == [] then [] else [chunks[0].content] + Contents(chunks[1..])
  }

  /** Chunk `k + 1` starts where chunk `k` ends. */
  predicate AbutsAt(chunks: seq<Chunk>, k: nat)
    requires k + 1 < |chunks|
  {
    chunks[k].end == chunks[k + 1].start
  }

  /** The first `n` chunks hold exactly the units up to the end of chunk `n - 1`. */
  lemma {:induction false} ContentsUpTo(units: seq<string>, spans: seq<UnitSpan>, chunks: seq<Chunk>,
                                        chunkSize: int, overlap: int, seps: seq<string>, n: nat)
    requires Packed(units, spans, chunks, chunkSize, overlap, seps) && overlap <= 0
    requires 0 < n <= |chunks|
    ensures Concat(Contents(chunks[..n])) == Concat(units[..spans[n - 1].hi])
  {
    assert ChunkOf(units, spans[n - 1], n - 1, chunks[n - 1]);
    if n == 1 {
      assert Contents(chunks[..1]) == [chunks[0].content];
      assert units[..spans[0].hi] == units[0..spans[0].hi];
    } else {
      ContentsUpTo(units, spans, chunks, chunkSize, overlap, seps, n - 1);
      assert StepAt(units, spans, n - 2, chunkSize, overlap, seps);
      var lo := spans[n - 1].lo;
      var hi := spans[n - 1].hi;
      assert lo == spans[n - 2].hi;
      assert chunks[..n] == chunks[..n - 1] + [chunks[n - 1]];
      assert Contents(chunks[..n]) == Contents(chunks[..n - 1]) + [chunks[n - 1].content];
      ConcatAppend(Contents(chunks[..n - 1]), [chunks[n - 1].content]);
      assert units[..hi] == units[..lo] + units[lo..hi];
      ConcatAppend(units[..lo], units[lo..hi]);
    }
  }

  /**
   * With no overlap the chunks abut, and their contents concatenate back
   * to the whole text.
   */
  lemma NoOverlapTiles(units: seq<string>, spans: seq<UnitSpan>, chunks: seq<Chunk>,
                       chunkSize: int, overlap: int, seps: seq<string>)
    requires Packed(units, spans, chunks, chunkSize, overlap, seps) && overlap <= 0
    ensures forall k: nat :: k + 1 < |chunks| ==> AbutsAt(chunks, k)
    ensures Concat(Contents(chunks)) == Concat(units)
  {
    forall k: nat | k + 1 < |chunks| ensures AbutsAt(chunks, k) {
      assert StepAt(units, spans, k, chunkSize, overlap, seps);
      assert ChunkOf(units, spans[k], k, chunks[k]);
      assert ChunkOf(units, spans[k + 1], k + 1, chunks[k + 1]);
    }
    if chunks != [] {
      ContentsUpTo(units, spans, chunks, chunkSize, overlap, seps, |chunks|);
      assert chunks[..|chunks|] == chunks;
      assert units[..|units|] == units;
    }
  }

  /**
   * Consecutive chunks: the next one starts inside the previous one (at its
   * end when nothing is carried) and ends strictly after it.
   */
  lemma ChunkOrder(units: seq<string>, spans: seq<UnitSpan>, chunks: seq<Chunk>,
                   chunkSize: int, overlap: int, seps: seq<string>, k: nat)
    requires Packed(units, spans, chunks, chunkSize, overlap, seps) && k + 1 < |chunks|
    requires forall j :: 0 <= j < |units| ==> units[j] != []
    ensures chunks[k].start <= chunks[k + 1].start <= chunks[k].end < chunks[k + 1].end
  {
    assert StepAt(units, spans, k, chunkSize, overlap, seps);
    assert ChunkOf(units, spans[k], k, chunks[k]);
    assert ChunkOf(units, spans[k + 1], k + 1, chunks[k + 1]);
    var next := spans[k + 1].lo;
    assert spans[k].lo <= next <= spans[k].hi by {
      if overlap > 0 {
        var g: nat :| spans[k].lo <= g <= spans[k].hi
          && GreedyCut(units, spans[k], g, Min(overlap, Offset(units, spans[k].hi) - Offset(units, spans[k].lo)))
          && SkipsSeparators(units, g, next, spans[k].hi, seps);
      }
    }
    OffsetMono(units, spans[k].lo, next);
    OffsetMono(units, next, spans[k].hi);
    OffsetStep(units, spans[k].hi);
    OffsetMono(units, spans[k].hi + 1, spans[k + 1].hi);
  }

  /** The span-level facts behind the overlap carried from chunk `k` into chunk `k + 1`. */
  lemma CarriedSpan(units: seq<string>, spans: seq<UnitSpan>, chunks: seq<Chunk>,
                    chunkSize: int, overlap: int, seps: seq<string>, k: nat)
    requires Packed(units, spans, chunks, chunkSize, overlap, seps) && k + 1 < |chunks| && overlap > 0
    ensures spans[k].lo <= spans[k + 1].lo <= spans[k].hi < spans[k + 1].hi <= |units|
    ensures Offset(units, spans[k].hi) - Offset(units, spans[k + 1].lo)
      <= Min(overlap, Offset(units, spans[k].hi) - Offset(units, spans[k].lo))
    ensures spans[k + 1].lo < spans[k].hi ==> !AllSep(units[spans[k + 1].lo], seps)
  {
    assert StepAt(units, spans, k, chunkSize, overlap, seps);
    assert ChunkOf(units, spans[k + 1], k + 1, chunks[k + 1]);
    var sp := spans[k];
    var next := spans[k + 1].lo;
    var g: nat :| sp.lo <= g <= sp.hi
      && GreedyCut(units, sp, g, Min(overlap, Offset(units, sp.hi) - Offset(units, sp.lo)))
      && SkipsSeparators(units, g, next, sp.hi, seps);
    OffsetMono(units, g, next);
  }

  /**
   * The carried overlap: chunk `k + 1` begins with a suffix of chunk `k` no
   * longer than `min(chunk_overlap, len(chunk k))`, and that suffix starts
   * with a unit that is not made of separator characters only.
   */
  lemma CarriedOverlap(units: seq<string>, spans: seq<UnitSpan>, chunks: seq<Chunk>,
                       chunkSize: int, overlap: int, seps: seq<string>, k: nat)
    requires Packed(units, spans, chunks, chunkSize, overlap, seps) && k + 1 < |chunks| && overlap > 0
    ensures var carried := chunks[k].end - chunks[k + 1].start;
      0 <= carried <= Min(overlap, |chunks[k].content|) && carried <= |chunks[k + 1].content|
    ensures var carried := chunks[k].end - chunks[k + 1].start;
      chunks[k + 1].content[..carried] == chunks[k].content[|chunks[k].content| - carried..]
    ensures spans[k + 1].lo < spans[k].hi ==> !AllSep(units[spans[k + 1].lo], seps)
  {
    CarriedSpan(units, spans, chunks, chunkSize, overlap, seps, k);
    ChunksAreSlices(units, spans, chunks, chunkSize, overlap, seps, k);
    ChunksAreSlices(units, spans, chunks, chunkSize, overlap, seps, k + 1);
    assert ChunkOf(units, spans[k], k, chunks[k]);
    assert ChunkOf(units, spans[k + 1], k + 1, chunks[k + 1]);
    OffsetMono(units, spans[k + 1].lo, spans[k].hi);
    OffsetMono(units, spans[k].hi, spans[k + 1].hi);
    var text := Concat(units);
    var c0 := chunks[k];
    var c1 := chunks[k + 1];
    var carried := c0.end - c1.start;
    assert c1.content[..carried] == text[c1.start..c0.end];
    assert c0.content[|c0.content| - carried..] == text[c1.start..c0.end];
  }

  /** A span filled from `first` fits in `chunkSize` when its last unit was added, unless it is one unit. */
  lemma SpanSizeBound(units: seq<string>, sp: UnitSpan, first: nat, chunkSize: int)
    requires sp.lo < sp.hi <= |units| && FilledFrom(units, sp, first, chunkSize)
    ensures Offset(units, sp.hi) - Offset(units, sp.lo) <= chunkSize || sp.hi == sp.lo + 1 || sp.hi <= first
  {
    if first <= sp.hi - 1 {
      assert FitsAt(units, sp.lo, sp.hi - 1, chunkSize);
    }
  }

  /**
   * A chunk outgrows `chunkSize` only when it holds a single unit, or a
   * single unit beyond the overlap it carried in.
   */
  lemma ChunkSizeBound(units: seq<string>, spans: seq<UnitSpan>, chunks: seq<Chunk>,
                       chunkSize: int, overlap: int, seps: seq<string>, k: nat)
    requires Packed(units, spans, chunks, chunkSize, overlap, seps) && k < |chunks|
    ensures |chunks[k].content| <= chunkSize
      || spans[k].hi == spans[k].lo + 1
      || (k > 0 && spans[k].hi == spans[k - 1].hi + 1)
  {
    assert ChunkOf(units, spans[k], k, chunks[k]);
    assert FilledAt(units, spans, k, chunkSize);
    ConcatSlice(units, spans[k].lo, spans[k].hi);
    SpanSizeBound(units, spans[k], FirstAdded(spans, k), chunkSize);
    if k > 0 {
      assert StepAt(units, spans, k - 1, chunkSize, overlap, seps);
    }
  }

  /** Without overlap every chunk fits in `chunkSize` unless it is a single unit. */
  lemma NoOverlapSizeBound(units: seq<string>, spans: seq<UnitSpan>, chunks: seq<Chunk>,
                           chunkSize: int, overlap: int, seps: seq<string>, k: nat)
    requires Packed(units, spans, chunks, chunkSize, overlap, seps) && k < |chunks| && overlap <= 0
    ensures |chunks[k].content| <= chunkSize || spans[k].hi == spans[k].lo + 1
  {
    ChunkSizeBound(units, spans, chunks, chunkSize, overlap, seps, k);
    if k > 0 {
      assert StepAt(units, spans, k - 1, chunkSize, overlap, seps);
    }
  }

  /** Chunks never end early: each one (but the last) was closed by a unit that would not fit. */
  lemma ClosedWhenFull(units: seq<string>, spans: seq<UnitSpan>, chunks: seq<Chunk>,
                       chunkSize: int, overlap: int, seps: seq<string>, k: nat)
    requires Packed(units, spans, chunks, chunkSize, overlap, seps) && k + 1 < |chunks|
    ensures spans[k].hi < |units| && |chunks[k].content| + |units[spans[k].hi]| > chunkSize
    ensures spans[k + 1].lo <= spans[k].hi < spans[k + 1].hi
  {
    assert StepAt(units, spans, k, chunkSize, overlap, seps);
    assert ChunkOf(units, spans[k], k, chunks[k]);
    ConcatSlice(units, spans[k].lo, spans[k].hi);
    OffsetStep(units, spans[k].hi);
    if overlap > 0 {
      var sp := spans[k];
      var g: nat :| sp.lo <= g <= sp.hi
        && GreedyCut(units, sp, g, Min(overlap, Offset(units, sp.hi) - Offset(units, sp.lo)))
        && SkipsSeparators(units, g, spans[k + 1].lo, sp.hi, seps);
    }
  }

  /** Every unit belongs to some chunk. */
  lemma {:induction false} UnitInChunk(units: seq<string>, spans: seq<UnitSpan>, chunks: seq<Chunk>,
                                       chunkSize: int, overlap: int, seps: seq<string>, j: nat, n: nat)
    requires Packed(units, spans, chunks, chunkSize, overlap, seps)
    requires 0 < n <= |spans| && j < spans[n - 1].hi
    ensures exists k :: 0 <= k < n && spans[k].lo <= j < spans[k].hi
  {
    assert ChunkOf(units, spans[n - 1], n - 1, chunks[n - 1]);
    if n == 1 {
      assert spans[0].lo == 0;
    } else if j < spans[n - 2].hi {
      UnitInChunk(units, spans, chunks, chunkSize, overlap, seps, j, n - 1);
      var k :| 0 <= k < n - 1 && spans[k].lo <= j < spans[k].hi;
    } else {
      ClosedWhenFull(units, spans, chunks, chunkSize, overlap, seps, n - 2);
      assert spans[n - 1].lo <= j < spans[n - 1].hi;
    }
  }

  /** Chunk `k` is numbered `k`, carries no image yet and is the text between its offsets. */
  predicate SliceAt(text: string, chunks: seq<Chunk>, k: nat)
    requires k < |chunks|
  {
    var c := chunks[k];
    c.seqNo == k && c.images == [] && 0 <= c.start <= c.end <= |text|
    && c.end == c.start + |c.content| && c.content == text[c.start..c.end]
  }

  predicate SlicesOf(text: string, chunks: seq<Chunk>) {
    forall k: nat :: k < |chunks| ==> SliceAt(text, chunks, k)
  }

  /** Each chunk starts inside the previous one (or at its end) and ends strictly after it. */
  predicate Ordered(chunks: seq<Chunk>) {
    forall k: nat :: k + 1 < |chunks| ==>
      chunks[k].start <= chunks[k + 1].start <= chunks[k].end < chunks[k + 1].end
  }

  /** The chunks run from the start to the end of the text, and there are none for an empty text. */
  predicate Covers(text: string, chunks: seq<Chunk>) {
    (chunks == [] <==> text == [])
    && (chunks != [] ==> chunks[0].start == 0 && chunks[|chunks| - 1].end == |text|)
  }

  lemma ConcatEmptyIff(units: seq<string>)
    requires forall j :: 0 <= j < |units| ==> units[j] != []
    ensures Concat(units) == [] <==> units == []
  {
    if units != [] {
      assert Concat(units) == units[0] + Concat(units[1..]);
    }
  }

  /** The chunk-level reading of `Packed` over a list of non-empty units. */
  lemma PackedChunks(units: seq<string>, spans: seq<UnitSpan>, chunks: seq<Chunk>,
                     chunkSize: int, overlap: int, seps: seq<string>)
    requires Packed(units, spans, chunks, chunkSize, overlap, seps)
    requires forall j :: 0 <= j < |units| ==> units[j] != []
    ensures SlicesOf(Concat(units), chunks) && Ordered(chunks) && Covers(Concat(units), chunks)
  {
    forall k: nat | k < |chunks| ensures SliceAt(Concat(units), chunks, k) {
      ChunksAreSlices(units, spans, chunks, chunkSize, overlap, seps, k);
    }
    forall k: nat | k + 1 < |chunks|
      ensures chunks[k].start <= chunks[k + 1].start <= chunks[k].end < chunks[k + 1].end
    {
      ChunkOrder(units, spans, chunks, chunkSize, overlap, seps, k);
    }
    ConcatEmptyIff(units);
    if chunks != [] {
      assert ChunkOf(units, spans[0], 0, chunks[0]);
      assert ChunkOf(units, spans[|chunks| - 1], |chunks| - 1, chunks[|chunks| - 1]);
      assert units[..|units|] == units;
    }
  }

  /** A span of the text that lies inside one unit lies inside one chunk. */
  lemma UnitSpanInChunk(units: seq<string>, spans: seq<UnitSpan>, chunks: seq<Chunk>,
                        chunkSize: int, overlap: int, seps: seq<string>, j: nat, s: int, e: int)
    requires Packed(units, spans, chunks, chunkSize, overlap, seps)
    requires j < |units| && Offset(units, j) <= s && e <= Offset(units, j) + |units[j]|
    ensures exists k :: 0 <= k < |chunks| && chunks[k].start <= s && e <= chunks[k].end
  {
    UnitInChunk(units, spans, chunks, chunkSize, overlap, seps, j, |spans|);
    var k :| 0 <= k < |spans| && spans[k].lo <= j < spans[k].hi;
    assert ChunkOf(units, spans[k], k, chunks[k]);
    OffsetMono(units, spans[k].lo, j);
    OffsetStep(units, j);
    OffsetMono(units, j + 1, spans[k].hi);
  }

  /**
   * `chunk_text`: "" gives no chunks; otherwise the text is split into units
   * and the units are packed. Every chunk is the slice of the text named by
   * its offsets, the chunks run in order over the whole text, without overlap
   * they tile it, and every protected structure lies inside a single chunk.
   */
  method ChunkText(text: string, matches: seq<Range>, chunkSize: int, overlap: int, seps: seq<string>)
    returns (chunks: seq<Chunk>, ghost units: seq<string>, ghost spans: seq<UnitSpan>)
    requires InText(text, matches)
    ensures units == Units(text, matches, seps)
    ensures Concat(units) == text && Packed(units, spans, chunks, chunkSize, overlap, seps)
    ensures SlicesOf(text, chunks) && Ordered(chunks) && Covers(text, chunks)
    ensures overlap <= 0 ==>
      (forall k: nat :: k + 1 < |chunks| ==> AbutsAt(chunks, k)) && Concat(Contents(chunks)) == text
    ensures forall i :: 0 <= i < |matches| && HasNonSpace(text[matches[i].start..matches[i].end]) ==>
      exists k :: 0 <= k < |chunks| && chunks[k].start <= matches[i].start && matches[i].end <= chunks[k].end
  {
    if text == [] {
      assert Protected(text, matches) == [] by {
        assert NonBlank(text, matches) == [];
      }
      return [], [], [];
    }
    var us := SplitIntoUnits(text, matches, seps);
    units := us;
    chunks, spans := PackUnits(us, chunkSize, overlap, seps);
    PackedChunks(units, spans, chunks, chunkSize, overlap, seps);
    if overlap <= 0 {
      NoOverlapTiles(units, spans, chunks, chunkSize, overlap, seps);
    }
    forall i | 0 <= i < |matches| && HasNonSpace(text[matches[i].start..matches[i].end])
      ensures exists k :: 0 <= k < |chunks| && chunks[k].start <= matches[i].start && matches[i].end <= chunks[k].end
    {
      var j :| 0 <= j < |units| && Offset(units, j) <= matches[i].start
        && matches[i].end <= Offset(units, j) + |units[j]|;
      UnitSpanInChunk(units, spans, chunks, chunkSize, overlap, seps, j, matches[i].start, matches[i].end);
    }
  }

  /**
   * `_find_complete_units`: the longest run of leading units that stays within
   * `target`, except that the first unit is always taken.
   */
  method FindCompleteUnits(units: seq<string>, target: int) returns (result: seq<string>)
    ensures |result| <= |units| && result == units[..|result|]
    ensures result == [] <==> units == []
    ensures |result| >= 2 ==> |Concat(result)| <= target
    ensures |result| < |units| ==> |Concat(result)| + |units[|result|]| > target
  {
    result := [];
    var currentSize := 0;
    var i := 0;
    while i < |units|
      invariant 0 <= i <= |units| && result == units[..i]
      invariant currentSize == Offset(units, i)
      invariant i >= 2 ==> currentSize <= target
    {
      var unit := units[i];
      if currentSize + |unit| > target && result != [] {
        break;
      }
      OffsetStep(units, i);
      assert units[..i + 1] == result + [unit];
      result := result + [unit];
      currentSize := currentSize + |unit|;
      i := i + 1;
    }
  }

  /** `s[:n]` in Python, where a negative `n` counts from the end. */
  function PyPrefix<T>(s: seq<T>, n: int): (r: seq<T>)
    ensures |r| <= |s| && r == s[..|r|]
    ensures 0 <= n <= |s| ==> |r| == n
    ensures n < 0 ==> |r| == if |s| + n >= 0 then |s| + n else 0
    ensures n >= |s| ==> r == s
  {
    if n >= |s| then s
    else if n >= 0 then s[..n]
    else if |s| + n >= 0 then s[..|s| + n]
    else []
  }

  /** The cut in `parse`: more than `maxChunks` chunks are cut down to `chunks[:max_chunks]`. */
  function LimitChunks(chunks: seq<Chunk>, maxChunks: int): (r: seq<Chunk>)
    ensures |r| <= |chunks| && r == chunks[..|r|]
    ensures |chunks| <= maxChunks ==> r == chunks
    ensures 0 <= maxChunks < |chunks| ==> |r| == maxChunks
  {
    if |chunks| > maxChunks then PyPrefix(chunks, maxChunks) else chunks
  }

  /** Cutting keeps every remaining chunk the text slice it was, in the same order. */
  lemma LimitKeepsSlices(text: string, chunks: seq<Chunk>, maxChunks: int)
    requires SlicesOf(text, chunks) && Ordered(chunks)
    ensures SlicesOf(text, LimitChunks(chunks, maxChunks)) && Ordered(LimitChunks(chunks, maxChunks))
  {
    var r := LimitChunks(chunks, maxChunks);
    forall k: nat | k < |r| ensures SliceAt(text, r, k) {
      assert r[k] == chunks[k];
      assert SliceAt(text, chunks, k);
    }
    forall k: nat | k + 1 < |r| ensures r[k].start <= r[k + 1].start <= r[k].end < r[k + 1].end {
      assert r[k] == chunks[k] && r[k + 1] == chunks[k + 1];
    }
  }

  /**
   * What `parse_into_text` handed back: None, a string, or a pair whose first
   * element is (normally) the text and whose second is the image map, from
   * image URL to the image (named here by the file it was read from).
   */
  datatype ParsedValue = NoValue | Text(s: string) | Pair(first: ParsedValue, imageMap: map<string, string>)

  /** The parser settings `parse` reads. */
  datatype ParserConfig = ParserConfig(
    fileName: string, fileType: string, enableMultimodal: bool,
    chunkSize: int, chunkOverlap: int, separators: seq<string>, maxChunks: int)

  /** `ParseResult`, along with whether the chunks go through the image pipeline. */
  datatype ParseResult = ParseResult(text: string, chunks: seq<Chunk>, imagesProcessed: bool)

  /** The file types whose chunks have their images processed. */
  const ImageTypes: seq<string> := [".pdf", ".md", ".markdown", ".doc", ".docx",
    ".jpg", ".jpeg", ".png", ".gif", ".bmp", ".tiff", ".webp"]

  /** The lower-cased extension `parse` tests: from the file name, else the file type. */
  function FileExt(cfg: ParserConfig): string {
    if cfg.fileName != [] then Lower(SplitExt(cfg.fileName).1)
    else if cfg.fileType != [] then Lower(cfg.fileType)
    else ""
  }

  /**
   * `BaseParser.parse` once `parse_into_text` has returned. The value is
   * unpacked as a string or a pair; None, or a pair whose first element is
   * not a string, makes `len` or the chunker's regular expressions raise.
   * The chunks are those of `chunk_text`, cut to `max_chunks`.
   */
  method Parse(value: ParsedValue, matches: seq<Range>, cfg: ParserConfig)
    returns (r: Result<ParseResult>, ghost all: seq<Chunk>, ghost spans: seq<UnitSpan>)
    requires value.Text? ==> InText(value.s, matches)
    requires value.Pair? && value.first.Text? ==> InText(value.first.s, matches)
    ensures value.NoValue? || (value.Pair? && !value.first.Text?) ==> r.Err?
    ensures value.Text? || (value.Pair? && value.first.Text?) ==>
      var text := if value.Text? then value.s else value.first.s;
      r.Ok? && r.value.text == text
      && SlicesOf(text, all) && Ordered(all) && Covers(text, all)
      && Packed(Units(text, matches, cfg.separators), spans, all, cfg.chunkSize, cfg.chunkOverlap, cfg.separators)
      && r.value.chunks == LimitChunks(all, cfg.maxChunks)
      && r.value.imagesProcessed == (cfg.enableMultimodal && FileExt(cfg) in ImageTypes)
  {
    var text: string;
    if value.Text? {
      text := value.s;
    } else if value.Pair? && value.first.Text? {
      text := value.first.s;
    } else {
      all, spans := [], [];
      return Err("TypeError: the parsed text is not a string"), all, spans;
    }
    var chunks;
    ghost var units;
    chunks, units, spans := ChunkText(text, matches, cfg.chunkSize, cfg.chunkOverlap, cfg.separators);
    all := chunks;
    if |chunks| > cfg.maxChunks {
      chunks := PyPrefix(chunks, cfg.maxChunks);
    }
    var ext := FileExt(cfg);
    r := Ok(ParseResult(text, chunks, cfg.enableMultimodal && ext in ImageTypes));
  }

  /**
   * The class-level OCR engine of `BaseParser`: the engine once built, and
   * whether building it has failed. The flag is never cleared.
   */
  class OcrLatch {
    var engine: Option<OcrEngine.Backend>
    var failed: bool

    /** Never both an engine and a failure. */
    predicate Valid()
      reads this
    {
      !(engine.Some? && failed)
    }

    constructor ()
      ensures engine == None && !failed && Valid()
    {
      engine := None;
      failed := false;
    }

    /**
     * `get_ocr_engine`. While nothing is cached and nothing has failed, the
     * factory is asked; a None answer or an exception latches the failure.
     * Afterwards the factory is never asked again: the cached engine, or
     * None, is returned.
     */
    method GetOcrEngine(factory: OcrEngine.Factory, backendType: Option<string>, env: OcrEngine.Environment)
      returns (r: Option<OcrEngine.Backend>)
      requires Valid()
      modifies this, factory
      ensures Valid()
      ensures old(engine).Some? || old(failed) ==>
        r == old(engine) && engine == old(engine) && failed == old(failed) && unchanged(factory)
      ensures old(engine).None? && !old(failed) ==>
        factory.instance == (if old(factory.instance).Some? then old(factory.instance)
                             else if backendType.Some? then OcrEngine.BackendFor(Lower(backendType.value), env)
                             else None)
        && engine == factory.instance && failed == engine.None? && r == engine
    {
      if engine.None? && !failed {
        var got := factory.GetInstance(backendType, env);
        if got.Err? {
          failed := true;
          return None;
        }
        engine := got.value;
        if engine.None? {
          failed := true;
          return None;
        }
      }
      return engine;
    }
  }

  /**
   * One match of the image pattern in a chunk: a Markdown image `![alt](url)`
   * or an HTML `<img ... src="src" ...>`. The pattern makes `url` and `src`
   * non-empty.
   */
  datatype ImageMatch =
    | MarkdownImage(start: nat, end: nat, alt: string, url: string)
    | HtmlImage(start: nat, end: nat, src: string)

  /** The dictionary built for one image by `extract_images_from_chunk`. */
  datatype ImageInfo = ImageInfo(originalUrl: string, start: nat, end: nat, altText: string, matchText: string)

  predicate MatchesIn(text: string, ms: seq<ImageMatch>) {
    forall k :: 0 <= k < |ms| ==>
      && ms[k].start <= ms[k].end <= |text|
      && (ms[k].MarkdownImage? ==> ms[k].url != [])
      && (ms[k].HtmlImage? ==> ms[k].src != [])
  }

  /**
   * `extract_images_from_chunk`: one record per match, in order, holding the
   * image URL, the match position, the alt text ("" for HTML images) and the
   * matched text itself.
   */
  method ExtractImages(chunk: Chunk, ms: seq<ImageMatch>) returns (infos: seq<ImageInfo>)
    requires MatchesIn(chunk.content, ms)
    ensures |infos| == |ms|
    ensures forall k :: 0 <= k < |ms| ==>
      infos[k].start == ms[k].start && infos[k].end == ms[k].end
      && infos[k].matchText == chunk.content[ms[k].start..ms[k].end]
      && |infos[k].matchText| == ms[k].end - ms[k].start
    ensures forall k :: 0 <= k < |ms| && ms[k].MarkdownImage? ==>
      infos[k].originalUrl == ms[k].url && infos[k].altText == ms[k].alt
    ensures forall k :: 0 <= k < |ms| && ms[k].HtmlImage? ==>
      infos[k].originalUrl == ms[k].src && infos[k].altText == ""
  {
    var text := chunk.content;
    infos := [];
    var i := 0;
    while i < |ms|
      invariant 0 <= i <= |ms| && |infos| == i
      invariant forall k :: 0 <= k < i ==>
        infos[k].start == ms[k].start && infos[k].end == ms[k].end
        && infos[k].matchText == text[ms[k].start..ms[k].end]
      invariant forall k :: 0 <= k < i && ms[k].MarkdownImage? ==>
        infos[k].originalUrl == ms[k].url && infos[k].altText == ms[k].alt
      invariant forall k :: 0 <= k < i && ms[k].HtmlImage? ==>
        infos[k].originalUrl == ms[k].src && infos[k].altText == ""
    {
      var m := ms[i];
      var url := if m.MarkdownImage? && m.url != [] then m.url else if m.HtmlImage? then m.src else "";
      var alt := if m.MarkdownImage? && m.alt != [] then m.alt else "";
      infos := infos + [ImageInfo(url, m.start, m.end, alt, text[m.start..m.end])];
      i := i + 1;
    }
  }
}
