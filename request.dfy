/**
 * Request-id bookkeeping of the logging layer: the two context variables
 * holding the current request id and its start time, the log filter that
 * stamps records with a shortened id and the elapsed time, and the
 * millisecond truncation of formatted timestamps.
 *
 * Clock readings are passed in as whole milliseconds, and a fresh uuid is
 * passed in as a string.
 */
module Request {
  import opened Wrappers
  import opened PyStr

  /** `a` is a prefix of `b`. */
  predicate IsPrefix(a: string, b: string) {
    |a| <= |b| && b[..|a|] == a
  }

  /** Splitting a string on `c` gives one more piece than it has occurrences of `c`. */
  lemma {:induction false} SplitCount(s: string, c: char)
    ensures |Split(s, c)| == CountChar(s, c) + 1
    decreases |s|
  {
    if c !in s {
      CountCharAbsent(s, c);
    } else {
      var i := IndexOf(s, c);
      assert s == s[..i] + [c] + s[i + 1..];
      CountCharAppend(s[..i] + [c], s[i + 1..], c);
      CountCharAppend(s[..i], [c], c);
      CountCharAbsent(s[..i], c);
      assert CountChar([c], c) == 1;
      SplitCount(s[i + 1..], c);
    }
  }

  /** The first piece of a split is the longest prefix free of `c`. */
  lemma FirstPiece(t: string, c: char)
    ensures var p := Split(t, c)[0];
      IsPrefix(p, t) && c !in p && (|p| == |t| || t[|p|] == c)
  {
    if c in t {
      var j := IndexOf(t, c);
      assert Split(t, c) == [t[..j]] + Split(t[j + 1..], c);
    }
  }

  /** Consecutive slices of a string put back together. */
  lemma SliceJoin(s: string, a: nat, b: nat)
    requires a <= b <= |s|
    ensures s[..a] + s[a..b] == s[..b]
  {
  }

  /**
   * The id `RequestIdFilter.filter` puts on a record: an id of at most eight
   * characters as it is; a longer one cut to eight characters, unless it
   * splits on "-" into at least three parts, which are then rejoined.
   */
  function ShortId(id: string): string {
    if |id| <= 8 then id
    else
      var parts := Split(id, '-');
      if '-' in id && |parts| >= 3 then parts[0] + "-" + parts[1] + "-" + parts[2]
      else id[..8]
  }

  /**
   * What the short id is, stated without the split: the id itself when short;
   * the first eight characters of a long id with fewer than two dashes;
   * otherwise the longest prefix holding exactly two dashes, which is either
   * the whole id or stops just before its third dash.
   */
  lemma ShortIdShape(id: string)
    ensures |id| <= 8 ==> ShortId(id) == id
    ensures |id| > 8 && CountChar(id, '-') < 2 ==> ShortId(id) == id[..8]
    ensures |id| > 8 && CountChar(id, '-') >= 2 ==>
      var r := ShortId(id);
      IsPrefix(r, id) && CountChar(r, '-') == 2 && (r == id || id[|r|] == '-')
  {
    if |id| > 8 {
      SplitCount(id, '-');
      if CountChar(id, '-') >= 2 {
        assert '-' in id by {
          if '-' !in id { CountCharAbsent(id, '-'); }
        }
        ThreePieces(id);
      }
    }
  }

  /** The first three dash-separated pieces, rejoined, are a prefix with two dashes. */
  lemma ThreePieces(id: string)
    requires '-' in id && |Split(id, '-')| >= 3
    ensures var parts := Split(id, '-');
      var r := parts[0] + "-" + parts[1] + "-" + parts[2];
      IsPrefix(r, id) && CountChar(r, '-') == 2 && (r == id || id[|r|] == '-')
  {
    var parts := Split(id, '-');
    var i := IndexOf(id, '-');
    var t1 := id[i + 1..];
    assert parts == [id[..i]] + Split(t1, '-');
    assert '-' in t1;
    var j := IndexOf(t1, '-');
    var t2 := t1[j + 1..];
    assert Split(t1, '-') == [t1[..j]] + Split(t2, '-');
    var p2 := Split(t2, '-')[0];
    FirstPiece(t2, '-');
    var k := |p2|;
    assert parts[0] == id[..i] && parts[1] == t1[..j] && parts[2] == p2;
    var r := id[..i] + "-" + t1[..j] + "-" + p2;
    PrefixPieces(id, i, j, k);
    assert r == id[..i + 2 + j + k];
    DashCount(id[..i], t1[..j], p2);
    if k < |t2| {
      assert id[|r|] == t2[k];
    }
  }

  /** Three dash-free pieces joined by two dashes hold exactly two dashes. */
  lemma DashCount(a: string, b: string, c: string)
    requires '-' !in a && '-' !in b && '-' !in c
    ensures CountChar(a + "-" + b + "-" + c, '-') == 2
  {
    CountCharAbsent(a, '-');
    CountCharAbsent(b, '-');
    CountCharAbsent(c, '-');
    CountCharAppend(a + "-" + b + "-", c, '-');
    CountCharAppend(a + "-" + b, "-", '-');
    CountCharAppend(a + "-", b, '-');
    CountCharAppend(a, "-", '-');
    assert CountChar("-", '-') == 1;
  }

  /** Slices separated by dashes at `i` and `i + 1 + j` rejoin into one prefix. */
  lemma PrefixPieces(id: string, i: nat, j: nat, k: nat)
    requires i + 2 + j + k <= |id| && id[i] == '-' && id[i + 1 + j] == '-'
    ensures id[..i] + "-" + id[i + 1..][..j] + "-" + id[i + 1..][j + 1..][..k] == id[..i + 2 + j + k]
  {
    assert id[..i] + "-" == id[..i + 1];
    assert id[i + 1..][..j] == id[i + 1..i + 1 + j];
    SliceJoin(id, i + 1, i + 1 + j);
    assert id[..i + 1 + j] + "-" == id[..i + 2 + j];
    assert id[i + 1..][j + 1..][..k] == id[i + 2 + j..i + 2 + j + k];
    SliceJoin(id, i + 2 + j, i + 2 + j + k);
  }

  /** Every short id is a prefix of the id it shortens. */
  lemma ShortIdPrefix(id: string)
    ensures IsPrefix(ShortId(id), id)
  {
    ShortIdShape(id);
  }

  /**
   * `MillisecondFormatter.formatTime` once the standard formatter produced
   * `formatted`: with a date format containing ".%f" and at least six
   * characters after the first ".", only the first three of them are kept.
   */
  function FormatTime(formatted: string, datefmt: Option<string>): string {
    if datefmt.Some? && Contains(datefmt.value, ".%f") then
      var parts := Split(formatted, '.');
      if |parts| > 1 && |parts[1]| >= 6 then parts[0] + "." + parts[1][..3] else formatted
    else formatted
  }

  /**
   * The piece after the first dot has at least six characters exactly when
   * six characters follow that dot and none of them is a dot.
   */
  lemma SecondPiece(s: string)
    requires '.' in s
    ensures var i := IndexOf(s, '.');
      |Split(s, '.')| > 1 && Split(s, '.')[0] == s[..i] && IsPrefix(Split(s, '.')[1], s[i + 1..]) &&
      (|Split(s, '.')[1]| >= 6 <==> i + 7 <= |s| && '.' !in s[i + 1..i + 7])
  {
    var i := IndexOf(s, '.');
    var t := s[i + 1..];
    assert Split(s, '.') == [s[..i]] + Split(t, '.');
    FirstPiece(t, '.');
    var p := Split(t, '.')[0];
    if |p| >= 6 {
      assert s[i + 1..i + 7] == p[..6];
    } else if i + 7 <= |s| {
      assert s[i + 1..i + 7][|p|] == t[|p|];
    }
  }

  /** Six dot-free characters follow the first dot of `s`. */
  predicate HasMicros(s: string) {
    '.' in s && IndexOf(s, '.') + 7 <= |s| && '.' !in s[IndexOf(s, '.') + 1..IndexOf(s, '.') + 7]
  }

  /** With microseconds present, three of the six digits are kept. */
  lemma FormatTimeCuts(formatted: string, datefmt: string)
    requires Contains(datefmt, ".%f") && HasMicros(formatted)
    ensures FormatTime(formatted, Some(datefmt)) == formatted[..IndexOf(formatted, '.') + 4]
  {
    SecondPiece(formatted);
    var i := IndexOf(formatted, '.');
    var p := Split(formatted, '.')[1];
    assert p[..3] == formatted[i + 1..i + 4];
    assert formatted[..i + 4] == formatted[..i] + "." + formatted[i + 1..i + 4];
  }

  /** Without microseconds the timestamp is kept as it is. */
  lemma FormatTimeKeeps(formatted: string)
    requires !HasMicros(formatted)
    ensures |Split(formatted, '.')| <= 1 || |Split(formatted, '.')[1]| < 6
  {
    if '.' in formatted {
      SecondPiece(formatted);
    } else {
      assert Split(formatted, '.') == [formatted];
    }
  }

  /**
   * The truncation stated on the characters: the timestamp is cut just after
   * the third character following its first dot exactly when the format asks
   * for ".%f" and six dot-free characters follow that dot; otherwise it is
   * returned unchanged.
   */
  lemma FormatTimeShape(formatted: string, datefmt: Option<string>)
    ensures var r := FormatTime(formatted, datefmt);
      if datefmt.Some? && Contains(datefmt.value, ".%f") && HasMicros(formatted)
      then r == formatted[..IndexOf(formatted, '.') + 4]
      else r == formatted
  {
    if datefmt.Some? && Contains(datefmt.value, ".%f") {
      if HasMicros(formatted) {
        FormatTimeCuts(formatted, datefmt.value);
      } else {
        FormatTimeKeeps(formatted);
      }
    }
  }

  /** Truncated timestamps are left alone by a second truncation. */
  lemma FormatTimeIdempotent(formatted: string, datefmt: Option<string>)
    ensures FormatTime(FormatTime(formatted, datefmt), datefmt) == FormatTime(formatted, datefmt)
  {
    var r := FormatTime(formatted, datefmt);
    FormatTimeShape(formatted, datefmt);
    FormatTimeShape(r, datefmt);
    if r != formatted {
      var i := IndexOf(formatted, '.');
      assert r == formatted[..i + 4];
      assert r[i] == '.' && r[..i] == formatted[..i];
      assert IndexOf(r, '.') == i by {
        IndexOfAt(r, '.', i);
      }
    }
  }

  /** The first occurrence of a character found where it first appears. */
  lemma IndexOfAt(s: string, c: char, i: nat)
    requires i < |s| && s[i] == c && c !in s[..i]
    ensures IndexOf(s, c) == i
  {
  }

  /** The text `filter` appends to a record's message. */
  function ElapsedSuffix(ms: int): string {
    " (elapsed: " + IntToStr(ms) + "ms)"
  }

  /** The attributes of a `LogRecord` that the filter reads or sets. */
  class LogRecord {
    var msg: string
    /** `record.request_id`, None until a filter sets it. */
    var requestId: Option<string>
    /** `record.elapsed_ms`, None until a filter sets it. */
    var elapsedMs: Option<int>
    /** `hasattr(record, "message_with_elapsed")`. */
    var messageWithElapsed: bool

    constructor (msg: string)
      ensures this.msg == msg && requestId == None && elapsedMs == None && !messageWithElapsed
    {
      this.msg := msg;
      requestId := None;
      elapsedMs := None;
      messageWithElapsed := false;
    }
  }

  /** What `ContextVar.set` hands back: the value it replaced, which `reset` restores. */
  datatype Frame = Frame(previousId: Option<string>, previousStart: Option<int>)

  /** The two context variables `request_id` and `request_start_time` of one context. */
  class RequestContext {
    var requestId: Option<string>
    var startTime: Option<int>

    constructor ()
      ensures requestId == None && startTime == None
    {
      requestId := None;
      startTime := None;
    }

    /** `set_request_id`: a later `get_request_id` returns the id. */
    method SetRequestId(id: string)
      modifies this
      ensures requestId == Some(id) && startTime == old(startTime)
    {
      requestId := Some(id);
    }

    /**
     * Entering `request_id_context`: the given id, or the fresh uuid when the
     * id is missing or empty, becomes current, with `now` as start time. The
     * id is what the `with` statement binds; the frame undoes both sets.
     */
    method Enter(id: Option<string>, freshId: string, now: int) returns (current: string, frame: Frame)
      modifies this
      ensures current == if id.Some? && id.value != "" then id.value else freshId
      ensures requestId == Some(current) && startTime == Some(now)
      ensures frame == Frame(old(requestId), old(startTime))
    {
      frame := Frame(requestId, startTime);
      current := if id.Some? && id.value != "" then id.value else freshId;
      requestId := Some(current);
      startTime := Some(now);
    }

    /** Leaving the context: both variables are reset with their tokens. */
    method Exit(frame: Frame)
      modifies this
      ensures requestId == frame.previousId && startTime == frame.previousStart
    {
      requestId := frame.previousId;
      startTime := frame.previousStart;
    }

    /**
     * `RequestIdFilter.filter` at clock reading `now`. Without a request id
     * the record gets "no-req-id"; otherwise it gets the short id, and when a
     * start time is set also the elapsed time, the message getting the
     * elapsed suffix only if no earlier filter call appended one.
     */
    method Filter(record: LogRecord, now: int) returns (keep: bool)
      modifies record
      ensures keep
      ensures requestId.None? ==>
        record.requestId == Some("no-req-id") && record.msg == old(record.msg) &&
        record.elapsedMs == old(record.elapsedMs) && record.messageWithElapsed == old(record.messageWithElapsed)
      ensures requestId.Some? ==> record.requestId == Some(ShortId(requestId.value))
      ensures requestId.Some? && startTime.None? ==>
        record.msg == old(record.msg) && record.elapsedMs == old(record.elapsedMs) &&
        record.messageWithElapsed == old(record.messageWithElapsed)
      ensures requestId.Some? && startTime.Some? ==>
        record.elapsedMs == Some(now - startTime.value) && record.messageWithElapsed &&
        record.msg == if old(record.messageWithElapsed) then old(record.msg)
                      else old(record.msg) + ElapsedSuffix(now - startTime.value)
    {
      if requestId.Some? {
        var id := requestId.value;
        if |id| > 8 {
          var shortId := id[..8];
          if '-' in id {
            var parts := Split(id, '-');
            if |parts| >= 3 {
              shortId := parts[0] + "-" + parts[1] + "-" + parts[2];
            }
          }
          record.requestId := Some(shortId);
        } else {
          record.requestId := Some(id);
        }
        if startTime.Some? {
          var elapsed := now - startTime.value;
          record.elapsedMs := Some(elapsed);
          if !record.messageWithElapsed {
            record.messageWithElapsed := true;
            record.msg := record.msg + ElapsedSuffix(elapsed);
          }
        }
      } else {
        record.requestId := Some("no-req-id");
      }
      return true;
    }
  }

  /**
   * Filtering the same record twice, as two handlers do, appends the elapsed
   * suffix once: the message carries the first call's suffix only.
   */
  method FilterTwice(ctx: RequestContext, record: LogRecord, now1: int, now2: int)
    modifies record
    ensures ctx.requestId.Some? && ctx.startTime.Some? && !old(record.messageWithElapsed) ==>
      record.msg == old(record.msg) + ElapsedSuffix(now1 - ctx.startTime.value)
    ensures ctx.requestId.None? || ctx.startTime.None? || old(record.messageWithElapsed) ==>
      record.msg == old(record.msg)
  {
    var keep1 := ctx.Filter(record, now1);
    var keep2 := ctx.Filter(record, now2);
  }

  /**
   * Nested `request_id_context` blocks unwind like a stack: inside each the
   * current id is that block's, and after both the variables hold what they
   * held before.
   */
  method NestedContexts(ctx: RequestContext, outer: string, inner: string, fresh1: string, fresh2: string,
                        t1: int, t2: int)
    returns (seenOuter: Option<string>, seenInner: Option<string>, seenBetween: Option<string>)
    modifies ctx
    ensures outer != [] ==> seenOuter == Some(outer)
    ensures inner != [] ==> seenInner == Some(inner)
    ensures seenBetween == seenOuter
    ensures ctx.requestId == old(ctx.requestId) && ctx.startTime == old(ctx.startTime)
  {
    var id1, frame1 := ctx.Enter(Some(outer), fresh1, t1);
    seenOuter := ctx.requestId;
    var id2, frame2 := ctx.Enter(Some(inner), fresh2, t2);
    seenInner := ctx.requestId;
    ctx.Exit(frame2);
    seenBetween := ctx.requestId;
    ctx.Exit(frame1);
  }
}
