/**
 * The helpers of the document reader's `utils` package: the running maxima
 * `findMaxDt` and `findMaxTm` over the lines of a file, the `singleton`
 * wrapper with its instance cache, and `rmSpace`, the two regular-expression
 * substitutions that delete spaces.
 *
 * A file is the sequence of strings successive `readline` calls return; an
 * entry "" or the end of the sequence is the end of the file, and
 * `failAt == Some(k)` makes the k-th read raise (Some(0) also stands for a
 * file that cannot be opened).
 */
module Utils {
  import opened Wrappers
  import opened PyStr

  // Reading a file line by line.

  /**
   * The index of the read that ends the loop: the end of the file, the read
   * that raises, or (with `numeric`) the first line `int()` rejects.
   */
  function StopIndex(file: seq<string>, failAt: Option<nat>, numeric: bool, i: nat): (n: nat)
    requires i <= |file|
    ensures i <= n <= |file|
    ensures n == |file| || file[n] == "" || failAt == Some(n) || (numeric && NotAnInt(file[n]))
    decreases |file| - i
  {
    if i == |file| || file[i] == "" || failAt == Some(i) || (numeric && NotAnInt(file[i])) then i
    else StopIndex(file, failAt, numeric, i + 1)
  }

  /** A line read without stopping moves the stopping point no nearer. */
  lemma NextRead(file: seq<string>, failAt: Option<nat>, i: nat)
    requires i < |file| && file[i] != "" && failAt != Some(i) && LineReading(file[i]).Some?
    ensures StopIndex(file, failAt, true, i + 1) == StopIndex(file, failAt, true, i)
    ensures LineValue(file[i]) == LineReading(file[i]).value
    ensures file[..i + 1] == file[..i] + [file[i]]
  {
  }

  /** `l.strip("\n")` of a line as read. */
  function Chomp(raw: string): string {
    StripChar(raw, '\n')
  }

  // findMaxDt

  const EpochStart := "1970-01-01 00:00:00"

  /** Python's `<` on str: by code point, with a proper prefix first. */
  predicate LexLess(a: string, b: string)
    decreases |a|
  {
    if a == [] then b != []
    else if b == [] then false
    else if a[0] != b[0] then a[0] < b[0]
    else LexLess(a[1..], b[1..])
  }

  lemma {:induction false} LexTotal(a: string, b: string)
    ensures a == b || LexLess(a, b) || LexLess(b, a)
    decreases |a|
  {
    if a != [] && b != [] && a[0] == b[0] {
      LexTotal(a[1..], b[1..]);
      if a[1..] == b[1..] {
        assert a == [a[0]] + a[1..] && b == [b[0]] + b[1..];
      }
    }
  }

  lemma {:induction false} LexTrans(a: string, b: string, c: string)
    requires LexLess(a, b) && LexLess(b, c)
    ensures LexLess(a, c)
    decreases |a|
  {
    if a != [] && b != [] && c != [] && a[0] == b[0] && b[0] == c[0] {
      LexTrans(a[1..], b[1..], c[1..]);
    }
  }

  lemma {:induction false} LexAsym(a: string, b: string)
    requires LexLess(a, b)
    ensures !LexLess(b, a)
    decreases |a|
  {
    if a != [] && b != [] && a[0] == b[0] {
      LexAsym(a[1..], b[1..]);
    }
  }

  /** A string at or below `m` stays below anything above `m`. */
  lemma LexBelowRaised(x: string, m: string, l: string)
    requires !LexLess(m, x) && LexLess(m, l)
    ensures !LexLess(l, x)
  {
    LexTotal(m, x);
    if LexLess(x, m) {
      LexTrans(x, m, l);
      LexAsym(x, l);
    } else {
      LexAsym(m, l);
    }
  }

  /** One step of `findMaxDt`: "nan" is skipped, a larger line replaces the maximum. */
  function DtStep(m: string, raw: string): string {
    var l := Chomp(raw);
    if l == "nan" then m else if LexLess(m, l) then l else m
  }

  /** The running maximum, from `start`, over the lines read so far. */
  function RunningMaxDt(start: string, lines: seq<string>): string {
    if lines == [] then start else DtStep(RunningMaxDt(start, lines[..|lines| - 1]), lines[|lines| - 1])
  }

  function MaxDtOf(lines: seq<string>): string {
    RunningMaxDt(EpochStart, lines)
  }

  lemma {:induction false} LexIrreflexive(a: string)
    ensures !LexLess(a, a)
    decreases |a|
  {
    if a != [] {
      LexIrreflexive(a[1..]);
    }
  }

  /**
   * The running maximum is the lexicographic maximum of `start` and every
   * stripped line other than "nan", and is one of them.
   */
  lemma {:induction false} RunningMaxDtIsMaximum(start: string, lines: seq<string>)
    ensures !LexLess(RunningMaxDt(start, lines), start)
    ensures forall k :: 0 <= k < |lines| && Chomp(lines[k]) != "nan" ==> !LexLess(RunningMaxDt(start, lines), Chomp(lines[k]))
    ensures RunningMaxDt(start, lines) == start ||
      exists k :: 0 <= k < |lines| && Chomp(lines[k]) != "nan" && RunningMaxDt(start, lines) == Chomp(lines[k])
  {
    if lines == [] {
      LexIrreflexive(start);
    } else {
      var init := lines[..|lines| - 1];
      var last := |lines| - 1;
      RunningMaxDtIsMaximum(start, init);
      var m := RunningMaxDt(start, init);
      var l := Chomp(lines[last]);
      assert forall k :: 0 <= k < last ==> lines[k] == init[k];
      if l != "nan" && LexLess(m, l) {
        LexBelowRaised(start, m, l);
        forall k | 0 <= k < |lines| && Chomp(lines[k]) != "nan"
          ensures !LexLess(l, Chomp(lines[k]))
        {
          if k < last {
            LexBelowRaised(Chomp(lines[k]), m, l);
          } else {
            LexIrreflexive(l);
          }
        }
      } else if l != "nan" {
        assert !LexLess(RunningMaxDt(start, lines), Chomp(lines[last]));
      }
    }
  }

  /**
   * `MaxDtOf` is the lexicographic maximum of the epoch start and every
   * stripped line other than "nan", and is one of them.
   */
  lemma MaxDtIsMaximum(lines: seq<string>)
    ensures !LexLess(MaxDtOf(lines), EpochStart)
    ensures forall k :: 0 <= k < |lines| && Chomp(lines[k]) != "nan" ==> !LexLess(MaxDtOf(lines), Chomp(lines[k]))
    ensures MaxDtOf(lines) == EpochStart ||
      exists k :: 0 <= k < |lines| && Chomp(lines[k]) != "nan" && MaxDtOf(lines) == Chomp(lines[k])
  {
    RunningMaxDtIsMaximum(EpochStart, lines);
  }

  /**
   * `findMaxDt`: reads lines until the end of the file or a failing read
   * and keeps the largest stripped line; on a failure the maximum so far is
   * returned.
   */
  method FindMaxDt(file: seq<string>, failAt: Option<nat>) returns (m: string)
    ensures m == MaxDtOf(file[..StopIndex(file, failAt, false, 0)])
  {
    m := EpochStart;
    var i := 0;
    while true
      invariant 0 <= i <= StopIndex(file, failAt, false, 0)
      invariant StopIndex(file, failAt, false, i) == StopIndex(file, failAt, false, 0)
      invariant m == MaxDtOf(file[..i])
      decreases |file| - i
    {
      if failAt == Some(i) {
        break;
      }
      var l := if i < |file| then file[i] else "";
      if l == "" {
        break;
      }
      assert file[..i + 1][..i] == file[..i];
      l := StripChar(l, '\n');
      if l != "nan" && LexLess(m, l) {
        m := l;
      }
      i := i + 1;
    }
  }

  // findMaxTm

  predicate IsDigit(c: char) {
    '0' <= c <= '9'
  }

  /** `t[lo..hi]` is all decimal digits. */
  predicate DigitsIn(t: string, lo: nat, hi: nat)
    requires lo <= hi <= |t|
  {
    forall k :: lo <= k < hi ==> IsDigit(t[k])
  }

  /** The decimal value of the digits `t[lo..hi]`. */
  function DigitsValue(t: string, lo: nat, hi: nat): nat
    requires lo <= hi <= |t| && DigitsIn(t, lo, hi)
    decreases hi - lo
  {
    if hi == lo then 0 else 10 * DigitsValue(t, lo, hi - 1) + (t[hi - 1] as int - '0' as int)
  }

  /** The first index from `i` on that is not whitespace, or |s|. */
  function SkipSpaces(s: string, i: nat): (j: nat)
    requires i <= |s|
    ensures i <= j <= |s|
    decreases |s| - i
  {
    if i == |s| || !IsSpace(s[i]) then i else SkipSpaces(s, i + 1)
  }

  /** The end of `s[lo..hi]` once its trailing whitespace is dropped. */
  function TrimEnd(s: string, lo: nat, hi: nat): (j: nat)
    requires lo <= hi <= |s|
    ensures lo <= j <= hi
    decreases hi - lo
  {
    if hi == lo || !IsSpace(s[hi - 1]) then hi else TrimEnd(s, lo, hi - 1)
  }

  /** `s[lo..hi]` read as an optional sign followed by decimal digits. */
  function ParseSpan(s: string, lo: nat, hi: nat): Option<int>
    requires lo <= hi <= |s|
  {
    var start := if lo < hi && (s[lo] == '-' || s[lo] == '+') then lo + 1 else lo;
    if start < hi && DigitsIn(s, start, hi) then
      var v: int := DigitsValue(s, start, hi);
      Some(if s[lo] == '-' then -v else v)
    else None
  }

  /**
   * `int(s)` for a string: whitespace around an optional sign and decimal
   * digits is ignored.
   */
  function ParseInt(s: string): Option<int> {
    var lo := SkipSpaces(s, 0);
    ParseSpan(s, lo, TrimEnd(s, lo, |s|))
  }

  /**
   * What one line contributes to `findMaxTm`: None when `int(l)` raises,
   * Some(None) for "nan", and otherwise Some of its value.
   */
  function LineReading(raw: string): Option<Option<int>> {
    var l := Chomp(raw);
    if l == "nan" then Some(None)
    else match ParseInt(l) {
      case None => None
      case Some(v) => Some(Some(v))
    }
  }

  /** The line makes `int(l)` raise: it is neither "nan" nor an integer. */
  predicate NotAnInt(raw: string) {
    LineReading(raw).None?
  }

  lemma {:induction false} DigitsOfNat(t: string, lo: nat, hi: nat, n: nat)
    requires lo <= hi <= |t| && t[lo..hi] == NatToStr(n)
    ensures DigitsIn(t, lo, hi) && DigitsValue(t, lo, hi) == n
    decreases n
  {
    assert forall k :: lo <= k < hi ==> t[k] == NatToStr(n)[k - lo];
    if n >= 10 {
      assert t[lo..hi - 1] == NatToStr(n / 10);
      DigitsOfNat(t, lo, hi - 1, n / 10);
    }
  }

  /** `int(str(n)) == n`. */
  lemma ParseIntToStr(n: int)
    ensures ParseInt(IntToStr(n)) == Some(n)
  {
    var s := IntToStr(n);
    assert s[0] == '-' || IsDigit(s[0]);
    assert IsDigit(s[|s| - 1]);
    assert SkipSpaces(s, 0) == 0 && TrimEnd(s, 0, |s|) == |s|;
    if n < 0 {
      assert s[1..|s|] == NatToStr(-n);
      DigitsOfNat(s, 1, |s|, -n);
    } else {
      assert s[0..|s|] == NatToStr(n);
      DigitsOfNat(s, 0, |s|, n);
    }
  }

  /** The value a line adds to `findMaxTm`'s maximum: None for "nan" (and for a line `int()` rejects). */
  function LineValue(raw: string): Option<int> {
    match LineReading(raw) {
      case Some(Some(v)) => Some(v)
      case _ => None
    }
  }

  /** The values of the lines, in order. */
  function Values(lines: seq<string>): (r: seq<Option<int>>)
    ensures |r| == |lines|
  {
    if lines == [] then [] else Values(lines[..|lines| - 1]) + [LineValue(lines[|lines| - 1])]
  }

  lemma {:induction false} ValuesAt(lines: seq<string>, k: nat)
    requires k < |lines|
    ensures Values(lines)[k] == LineValue(lines[k])
  {
    var init := lines[..|lines| - 1];
    if k < |init| {
      ValuesAt(init, k);
    }
  }

  lemma ValuesAppend(lines: seq<string>, raw: string)
    ensures Values(lines + [raw]) == Values(lines) + [LineValue(raw)]
  {
    assert (lines + [raw])[..|lines|] == lines;
  }

  /**
   * Every line before the stopping point was read, is not the end of the
   * file, and (with `numeric`) is one `int()` accepts.
   */
  lemma {:induction false} BeforeStop(file: seq<string>, failAt: Option<nat>, numeric: bool, i: nat, k: nat)
    requires i <= |file| && i <= k < StopIndex(file, failAt, numeric, i)
    ensures file[k] != "" && failAt != Some(k) && !(numeric && NotAnInt(file[k]))
    decreases k - i
  {
    if i < k {
      BeforeStop(file, failAt, numeric, i + 1, k);
    }
  }

  /** The running maximum of `findMaxTm`, from `start`: "nan" is skipped, a larger value replaces it. */
  function RunningMax(start: int, vs: seq<Option<int>>): int {
    if vs == [] then start
    else
      var m := RunningMax(start, vs[..|vs| - 1]);
      match vs[|vs| - 1] {
        case None => m
        case Some(v) => if v > m then v else m
      }
  }

  function MaxTmOf(lines: seq<string>): int {
    RunningMax(0, Values(lines))
  }

  lemma {:induction false} RunningMaxIsMaximum(start: int, vs: seq<Option<int>>)
    ensures RunningMax(start, vs) >= start
    ensures forall k :: 0 <= k < |vs| && vs[k].Some? ==> RunningMax(start, vs) >= vs[k].value
    ensures RunningMax(start, vs) == start ||
      exists k :: 0 <= k < |vs| && vs[k] == Some(RunningMax(start, vs))
  {
    if vs != [] {
      var init := vs[..|vs| - 1];
      assert forall k :: 0 <= k < |init| ==> init[k] == vs[k];
      RunningMaxIsMaximum(start, init);
    }
  }

  /** `MaxTmOf` is the maximum of 0 and the value of every line other than "nan", and is one of them. */
  lemma MaxTmIsMaximum(lines: seq<string>)
    ensures MaxTmOf(lines) >= 0
    ensures forall k :: 0 <= k < |lines| && LineValue(lines[k]).Some? ==> MaxTmOf(lines) >= LineValue(lines[k]).value
    ensures MaxTmOf(lines) == 0 || exists k :: 0 <= k < |lines| && LineValue(lines[k]) == Some(MaxTmOf(lines))
  {
    var vs := Values(lines);
    RunningMaxIsMaximum(0, vs);
    forall k | 0 <= k < |lines|
      ensures LineValue(lines[k]) == vs[k]
    {
      ValuesAt(lines, k);
    }
  }

  /**
   * `findMaxTm`: reads lines until the end of the file, a failing read or a
   * line `int()` rejects, keeping the largest value; on a failure the
   * maximum so far is returned.
   */
  method FindMaxTm(file: seq<string>, failAt: Option<nat>) returns (m: int)
    ensures m == MaxTmOf(file[..StopIndex(file, failAt, true, 0)])
  {
    m := 0;
    var i := 0;
    while true
      invariant 0 <= i <= StopIndex(file, failAt, true, 0)
      invariant StopIndex(file, failAt, true, i) == StopIndex(file, failAt, true, 0)
      invariant m == MaxTmOf(file[..i])
      decreases |file| - i
    {
      if failAt == Some(i) {
        break;
      }
      var raw := if i < |file| then file[i] else "";
      if raw == "" {
        break;
      }
      // l.strip("\n"), then "nan" is skipped and int(l) read
      var reading := LineReading(raw);
      if reading.None? {
        break;
      }
      var v := reading.value;
      NextRead(file, failAt, i);
      ValuesAppend(file[..i], raw);
      if v.Some? && v.value > m {
        m := v.value;
      }
      i := i + 1;
    }
  }

  /** Whatever the file holds, `findMaxTm` never returns a negative value. */
  method FindMaxTmNonNegative(file: seq<string>, failAt: Option<nat>) returns (m: int)
    ensures m >= 0
  {
    m := FindMaxTm(file, failAt);
    MaxTmIsMaximum(file[..StopIndex(file, failAt, true, 0)]);
  }

  // singleton

  /** An object `cls(*args, **kw)` built. */
  class Instance {
    const key: string

    constructor(key: string)
      ensures this.key == key
    {
      this.key := key;
    }
  }

  /**
   * The wrapper `singleton(cls)` returns, with the `instances` dictionary it
   * closes over. `built` counts the constructions.
   */
  class SingletonWrapper {
    const clsName: string
    var instances: map<string, Instance>
    ghost var built: nat

    ghost predicate Valid()
      reads this
    {
      built == |instances|
    }

    constructor(clsName: string)
      ensures this.clsName == clsName && instances == map[] && built == 0
      ensures Valid()
    {
      this.clsName := clsName;
      instances := map[];
      built := 0;
    }

    /** The cache key: the class's name followed by the process id. */
    function Key(pid: int): string
      reads this
    {
      clsName + IntToStr(pid)
    }

    /**
     * `_singleton()`: the cached instance for this class and process, built
     * and cached on the first call.
     */
    method Call(pid: int) returns (r: Instance)
      requires Valid()
      modifies this
      ensures Valid()
      ensures Key(pid) in old(instances) ==> r == old(instances)[Key(pid)] && instances == old(instances) && built == old(built)
      ensures Key(pid) !in old(instances) ==>
        fresh(r) && instances == old(instances)[Key(pid) := r] && built == old(built) + 1
      ensures instances[Key(pid)] == r
    {
      var key := clsName + IntToStr(pid);
      if key !in instances {
        var inst := new Instance(key);
        instances := instances[key := inst];
        built := built + 1;
      }
      r := instances[key];
    }
  }

  /** Two calls in one process give the same object, built at most once. */
  method CallTwice(w: SingletonWrapper, pid: int) returns (a: Instance, b: Instance)
    requires w.Valid()
    modifies w
    ensures a == b
    ensures w.built <= old(w.built) + 1
  {
    a := w.Call(pid);
    b := w.Call(pid);
  }

  // rmSpace

  /**
   * `[a-z0-9]` under IGNORECASE: ASCII letters of either case, the Kelvin
   * sign (lowered to `k`), dotted capital I (lowered to `i`), dotless i and
   * long s (the engine's case equivalents of `i` and `s`), and digits.
   */
  predicate IsWordChar(c: char) {
    ('a' <= LowerChar(c) <= 'z') || c == '\U{130}' || c == '\U{131}' || c == '\U{17F}' || IsDigit(c)
  }

  /** `[^a-z0-9.,\)>]`: a character after which spaces are removed. */
  predicate GluesAfter(c: char) {
    !IsWordChar(c) && c != '.' && c != ',' && c != ')' && c != '>'
  }

  /** `[^a-z0-9.,\(<]`: a character before which spaces are removed. */
  predicate GluesBefore(c: char) {
    !IsWordChar(c) && c != '.' && c != ',' && c != '(' && c != '<'
  }

  /** The end of the run of spaces starting at `j`. */
  function SpaceRunEnd(s: string, j: nat): (e: nat)
    requires j <= |s|
    ensures j <= e <= |s| && (e == |s| || s[e] != ' ')
    ensures forall k :: j <= k < e ==> s[k] == ' '
    decreases |s| - j
  {
    if j == |s| || s[j] != ' ' then j else SpaceRunEnd(s, j + 1)
  }

  /**
   * `re.sub(r"([^a-z0-9.,\)>]) +([^ ])", r"\1\2", s, flags=re.IGNORECASE)`,
   * scanning left to right: a match is such a character, one or more spaces
   * and the non-space after them, and is replaced by the two characters.
   */
  function GlueAfterSub(s: string): string
    decreases |s|
  {
    if s == [] then []
    else if GluesAfter(s[0]) && |s| > 1 && s[1] == ' ' && SpaceRunEnd(s, 1) < |s| then
      var e := SpaceRunEnd(s, 1);
      [s[0], s[e]] + GlueAfterSub(s[e + 1..])
    else [s[0]] + GlueAfterSub(s[1..])
  }

  /**
   * `re.sub(r"([^ ]) +([^a-z0-9.,\(<])", r"\1\2", s, flags=re.IGNORECASE)`.
   * The greedy run of spaces gives back its last space when the character
   * after it does not qualify, since a space itself does.
   */
  function GlueBeforeSub(s: string): string
    decreases |s|
  {
    if s == [] then []
    else if s[0] != ' ' && |s| > 1 && s[1] == ' ' then
      var e := SpaceRunEnd(s, 1);
      if e < |s| && GluesBefore(s[e]) then [s[0], s[e]] + GlueBeforeSub(s[e + 1..])
      else if e >= 3 then [s[0], ' '] + GlueBeforeSub(s[e..])
      else [s[0]] + GlueBeforeSub(s[1..])
    else [s[0]] + GlueBeforeSub(s[1..])
  }

  /** `rmSpace`. */
  function RmSpace(txt: string): string {
    GlueBeforeSub(GlueAfterSub(txt))
  }

  /** `r` is `s` with some of its space characters deleted. */
  predicate SpacesDeleted(r: string, s: string)
    decreases |s|
  {
    if s == [] then r == []
    else (s[0] == ' ' && SpacesDeleted(r, s[1..])) || (r != [] && r[0] == s[0] && SpacesDeleted(r[1..], s[1..]))
  }

  /** The characters of `s` other than spaces, in order. */
  function NonSpaces(s: string): string {
    if s == [] then [] else (if s[0] == ' ' then [] else [s[0]]) + NonSpaces(s[1..])
  }

  lemma {:induction false} DropRun(r: string, s: string, j: nat, e: nat)
    requires j <= e <= |s| && forall k :: j <= k < e ==> s[k] == ' '
    requires SpacesDeleted(r, s[e..])
    ensures SpacesDeleted(r, s[j..])
    decreases e - j
  {
    if j < e {
      DropRun(r, s, j + 1, e);
      assert s[j..][1..] == s[j + 1..];
    }
  }

  lemma KeepFirst(r: string, s: string)
    requires s != [] && SpacesDeleted(r, s[1..])
    ensures SpacesDeleted([s[0]] + r, s)
  {
    assert ([s[0]] + r)[1..] == r;
  }

  lemma {:induction false} GlueAfterDeletes(s: string)
    ensures SpacesDeleted(GlueAfterSub(s), s)
    decreases |s|
  {
    if s != [] {
      if GluesAfter(s[0]) && |s| > 1 && s[1] == ' ' && SpaceRunEnd(s, 1) < |s| {
        var e := SpaceRunEnd(s, 1);
        var rest := GlueAfterSub(s[e + 1..]);
        GlueAfterDeletes(s[e + 1..]);
        assert s[e..][1..] == s[e + 1..];
        KeepFirst(rest, s[e..]);
        DropRun([s[e]] + rest, s, 1, e);
        KeepFirst([s[e]] + rest, s);
        assert [s[0]] + ([s[e]] + rest) == [s[0], s[e]] + rest;
      } else {
        GlueAfterDeletes(s[1..]);
        KeepFirst(GlueAfterSub(s[1..]), s);
      }
    }
  }

  lemma {:induction false} GlueBeforeDeletes(s: string)
    ensures SpacesDeleted(GlueBeforeSub(s), s)
    decreases |s|
  {
    if s != [] {
      if s[0] != ' ' && |s| > 1 && s[1] == ' ' {
        var e := SpaceRunEnd(s, 1);
        if e < |s| && GluesBefore(s[e]) {
          var rest := GlueBeforeSub(s[e + 1..]);
          GlueBeforeDeletes(s[e + 1..]);
          assert s[e..][1..] == s[e + 1..];
          KeepFirst(rest, s[e..]);
          DropRun([s[e]] + rest, s, 1, e);
          KeepFirst([s[e]] + rest, s);
          assert [s[0]] + ([s[e]] + rest) == [s[0], s[e]] + rest;
        } else if e >= 3 {
          var rest := GlueBeforeSub(s[e..]);
          GlueBeforeDeletes(s[e..]);
          assert s[e - 1..][1..] == s[e..];
          KeepFirst(rest, s[e - 1..]);
          DropRun([s[e - 1]] + rest, s, 1, e - 1);
          KeepFirst([s[e - 1]] + rest, s);
          assert [s[0]] + ([s[e - 1]] + rest) == [s[0], ' '] + rest;
        } else {
          GlueBeforeDeletes(s[1..]);
          KeepFirst(GlueBeforeSub(s[1..]), s);
        }
      } else {
        GlueBeforeDeletes(s[1..]);
        KeepFirst(GlueBeforeSub(s[1..]), s);
      }
    }
  }

  lemma {:induction false} SpacesDeletedTrans(a: string, b: string, c: string)
    requires SpacesDeleted(a, b) && SpacesDeleted(b, c)
    ensures SpacesDeleted(a, c)
    decreases |c|
  {
    if c != [] {
      if c[0] == ' ' && SpacesDeleted(b, c[1..]) {
        SpacesDeletedTrans(a, b, c[1..]);
      } else {
        assert b != [] && b[0] == c[0] && SpacesDeleted(b[1..], c[1..]);
        if b[0] == ' ' && SpacesDeleted(a, b[1..]) {
          SpacesDeletedTrans(a, b[1..], c[1..]);
        } else {
          SpacesDeletedTrans(a[1..], b[1..], c[1..]);
        }
      }
    }
  }

  /** Deleting spaces never lengthens a string and keeps its other characters in order. */
  lemma {:induction false} SpacesDeletedShape(r: string, s: string)
    requires SpacesDeleted(r, s)
    ensures |r| <= |s|
    ensures NonSpaces(r) == NonSpaces(s)
    decreases |s|
  {
    if s != [] {
      if s[0] == ' ' && SpacesDeleted(r, s[1..]) {
        SpacesDeletedShape(r, s[1..]);
      } else {
        SpacesDeletedShape(r[1..], s[1..]);
      }
    }
  }

  /**
   * `rmSpace` only deletes spaces: its result is shorter or as long, and
   * has the same characters other than spaces, in the same order.
   */
  lemma RmSpaceDeletesSpaces(txt: string)
    ensures SpacesDeleted(RmSpace(txt), txt)
    ensures |RmSpace(txt)| <= |txt|
    ensures NonSpaces(RmSpace(txt)) == NonSpaces(txt)
  {
    var once := GlueAfterSub(txt);
    GlueAfterDeletes(txt);
    GlueBeforeDeletes(once);
    SpacesDeletedTrans(RmSpace(txt), once, txt);
    SpacesDeletedShape(RmSpace(txt), txt);
  }

  /** A space between two CJK characters is removed. */
  lemma RmSpaceJoinsCjk()
    ensures RmSpace("中 文") == "中文"
  {
    assert SpaceRunEnd("中 文", 1) == 2;
    assert GlueAfterSub("中 文") == "中文";
    assert GlueBeforeSub("中文") == "中文";
  }

  /** A space between two words is kept. */
  lemma RmSpaceKeepsWordGap()
    ensures RmSpace("ab cd") == "ab cd"
  {
    assert GlueAfterSub("cd") == "cd";
    assert GlueAfterSub(" cd") == " cd";
    assert GlueAfterSub("ab cd") == "ab cd";
    assert GlueBeforeSub("cd") == "cd";
    assert GlueBeforeSub(" cd") == " cd";
    assert SpaceRunEnd("b cd", 1) == 2;
    assert GlueBeforeSub("b cd") == "b cd";
  }

  /** Dotless i counts as a letter of the class, so the space after it is kept. */
  lemma RmSpaceKeepsDotlessGap()
    ensures RmSpace("\U{131} x") == "\U{131} x"
  {
    assert GlueAfterSub("x") == "x";
    assert GlueAfterSub(" x") == " x";
    assert GlueAfterSub("\U{131} x") == "\U{131} x";
    assert GlueBeforeSub("x") == "x";
    assert GlueBeforeSub(" x") == " x";
    assert SpaceRunEnd("\U{131} x", 1) == 2;
    assert GlueBeforeSub("\U{131} x") == "\U{131} x";
  }
}
