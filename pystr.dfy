/**
 * The parts of Python's `str` that the document reader relies on, stated over
 * Dafny strings (sequences of Unicode scalar values).
 */
module PyStr {

  /** `str.isspace()` for one character: the Unicode White_Space set Python uses. */
  predicate IsSpace(c: char) {
    ('\t' <= c <= '\r') || ('\U{1C}' <= c <= ' ') || c == '\U{85}' || c == '\U{A0}'
    || c == '\U{1680}' || ('\U{2000}' <= c <= '\U{200A}') || c == '\U{2028}'
    || c == '\U{2029}' || c == '\U{202F}' || c == '\U{205F}' || c == '\U{3000}'
  }

  /** A string is truthy after `strip()` exactly when it has a non-whitespace character. */
  predicate HasNonSpace(s: string) {
    exists i :: 0 <= i < |s| && !IsSpace(s[i])
  }

  /** `s.lstrip()`: the longest suffix of `s` that does not start with whitespace. */
  function LStrip(s: string): (r: string)
    ensures |r| <= |s| && r == s[|s| - |r|..]
    ensures forall i :: 0 <= i < |s| - |r| ==> IsSpace(s[i])
    ensures r == [] || !IsSpace(r[0])
  {
    if s == [] || !IsSpace(s[0]) then s else LStrip(s[1..])
  }

  /** `s.rstrip()`: the longest prefix of `s` that does not end with whitespace. */
  function RStrip(s: string): (r: string)
    ensures |r| <= |s| && r == s[..|r|]
    ensures forall i :: |r| <= i < |s| ==> IsSpace(s[i])
    ensures r == [] || !IsSpace(r[|r| - 1])
  {
    if s == [] || !IsSpace(s[|s| - 1]) then s else RStrip(s[..|s| - 1])
  }

  /** `s.strip()`. */
  function Strip(s: string): string {
    RStrip(LStrip(s))
  }

  /** `strip()` leaves something exactly when the string has a non-whitespace character. */
  lemma StripNonEmptyIff(s: string)
    ensures Strip(s) != [] <==> HasNonSpace(s)
  {
    if HasNonSpace(s) {
      StripKeepsNonSpace(s);
    }
    if Strip(s) != [] {
      StrippedNonSpace(s);
    }
  }

  lemma StripKeepsNonSpace(s: string)
    requires HasNonSpace(s)
    ensures Strip(s) != []
  {
    var i :| 0 <= i < |s| && !IsSpace(s[i]);
    NonSpaceSurvives(s, LStrip(s), RStrip(LStrip(s)), i);
  }

  /** A non-whitespace character of `s` survives cutting whitespace from both ends. */
  lemma NonSpaceSurvives(s: string, l: string, r: string, i: nat)
    requires i < |s| && !IsSpace(s[i])
    requires |l| <= |s| && l == s[|s| - |l|..] && forall x :: 0 <= x < |s| - |l| ==> IsSpace(s[x])
    requires |r| <= |l| && r == l[..|r|] && forall x :: |r| <= x < |l| ==> IsSpace(l[x])
    ensures r != []
  {
    var j := i - (|s| - |l|);
    assert 0 <= j && l[j] == s[i];
  }

  lemma StrippedNonSpace(s: string)
    requires Strip(s) != []
    ensures HasNonSpace(s)
  {
    var l := LStrip(s);
    assert l[0] == s[|s| - |l|];
  }

  /** A stripped string neither starts nor ends with whitespace, and is a slice of the input. */
  lemma StripShape(s: string)
    ensures var r := Strip(s); r == [] || (!IsSpace(r[0]) && !IsSpace(r[|r| - 1]))
    ensures exists k :: OccursAt(s, Strip(s), k)
  {
    var l := LStrip(s);
    var r := RStrip(l);
    var k := |s| - |l|;
    assert r == l[..|r|] && l == s[k..];
    assert s[k..k + |r|] == s[k..][..|r|];
    assert OccursAt(s, r, k);
  }

  /** What `strip()` leaves, stated for a string known by name. */
  lemma StrippedText(s: string, t: string)
    requires t == Strip(s)
    ensures t == [] <==> !HasNonSpace(s)
    ensures t == [] || (!IsSpace(t[0]) && !IsSpace(t[|t| - 1]))
  {
    StripNonEmptyIff(s);
    StripShape(s);
  }

  /** A string with no whitespace at either end is its own `strip()`. */
  lemma StripFixed(l: string)
    requires l != "" && !IsSpace(l[0]) && !IsSpace(l[|l| - 1])
    ensures Strip(l) == l
  {
    assert LStrip(l) == l;
  }

  /** `s.strip(c)` for a single character `c`. */
  function StripChar(s: string, c: char): (r: string)
    ensures r == [] || (r[0] != c && r[|r| - 1] != c)
    ensures |r| <= |s|
  {
    if s == [] then s
    else if s[0] == c then StripChar(s[1..], c)
    else if s[|s| - 1] == c then StripChar(s[..|s| - 1], c)
    else s
  }

  /** `s.startswith(p)`. */
  predicate StartsWith(s: string, p: string) {
    |p| <= |s| && s[..|p|] == p
  }

  /** `sub` occurs in `s` at position `k`. */
  predicate OccursAt(s: string, sub: string, k: int) {
    0 <= k <= |s| - |sub| && s[k..k + |sub|] == sub
  }

  /** `sub in s`. */
  predicate Contains(s: string, sub: string)
    decreases |s|
  {
    StartsWith(s, sub) || (s != [] && Contains(s[1..], sub))
  }

  /** `sub in s` holds exactly when `sub` occurs at some position of `s`. */
  lemma {:induction false} ContainsIff(s: string, sub: string)
    ensures Contains(s, sub) <==> exists k :: OccursAt(s, sub, k)
    decreases |s|
  {
    if StartsWith(s, sub) {
      assert OccursAt(s, sub, 0);
    } else if s != [] {
      ContainsIff(s[1..], sub);
      if Contains(s[1..], sub) {
        var k :| OccursAt(s[1..], sub, k);
        assert s[k + 1..k + 1 + |sub|] == s[1..][k..k + |sub|];
        assert OccursAt(s, sub, k + 1);
      }
      if exists k :: OccursAt(s, sub, k) {
        var k :| OccursAt(s, sub, k);
        assert k != 0;
        assert s[1..][k - 1..k - 1 + |sub|] == s[k..k + |sub|];
        assert OccursAt(s[1..], sub, k - 1);
      }
    } else {
      assert forall k :: !OccursAt(s, sub, k);
    }
  }

  /** The first index of character `c` in `s` (`s.index(c)`). */
  function IndexOf(s: string, c: char): (i: nat)
    requires c in s
    ensures i < |s| && s[i] == c && c !in s[..i]
  {
    if s[0] == c then 0 else 1 + IndexOf(s[1..], c)
  }

  /** `s.rfind(c)`: the last index of `c`, or -1. */
  function RFind(s: string, c: char): (i: int)
    ensures -1 <= i < |s|
    ensures i >= 0 ==> s[i] == c
    ensures forall k :: i < k < |s| ==> s[k] != c
  {
    if s == [] then -1
    else if s[|s| - 1] == c then |s| - 1
    else RFind(s[..|s| - 1], c)
  }

  /** `"".join(parts)`. */
  function Concat(parts: seq<string>): string {
    if parts == [] then [] else parts[0] + Concat(parts[1..])
  }

  lemma {:induction false} ConcatAppend(a: seq<string>, b: seq<string>)
    ensures Concat(a + b) == Concat(a) + Concat(b)
  {
    if a != [] {
      ConcatAppend(a[1..], b);
      assert (a + b)[1..] == a[1..] + b;
    } else {
      assert a + b == b;
    }
  }

  /** `sep.join(parts)`. */
  function Join(sep: string, parts: seq<string>): string {
    if parts == [] then []
    else if |parts| == 1 then parts[0]
    else parts[0] + sep + Join(sep, parts[1..])
  }

  /** Joining a first part and at least one more. */
  lemma JoinCons(sep: string, p: string, parts: seq<string>)
    requires parts != []
    ensures Join(sep, [p] + parts) == p + sep + Join(sep, parts)
  {
    assert ([p] + parts)[0] == p;
    assert ([p] + parts)[1..] == parts;
  }

  lemma {:induction false} JoinAppendOne(sep: string, parts: seq<string>, p: string)
    ensures Join(sep, parts + [p]) == if parts == [] then p else Join(sep, parts) + sep + p
  {
    if |parts| > 1 {
      JoinAppendOne(sep, parts[1..], p);
      assert (parts + [p])[1..] == parts[1..] + [p];
    } else if |parts| == 1 {
      assert (parts + [p])[1..] == [p];
    }
  }

  lemma {:induction false} JoinEmptySep(parts: seq<string>)
    ensures Join("", parts) == Concat(parts)
  {
    if |parts| > 1 { JoinEmptySep(parts[1..]); }
  }

  /** The non-empty elements of `parts`, in order (`[p for p in parts if p]`). */
  function NonEmpty(parts: seq<string>): (r: seq<string>)
    ensures forall k :: 0 <= k < |r| ==> r[k] != []
    ensures |r| <= |parts|
  {
    if parts == [] then []
    else if parts[0] == [] then NonEmpty(parts[1..])
    else [parts[0]] + NonEmpty(parts[1..])
  }

  /** Joining non-empty parts gives the empty string exactly when there are none. */
  lemma JoinEmptyIff(sep: string, parts: seq<string>)
    requires forall k :: 0 <= k < |parts| ==> parts[k] != []
    ensures Join(sep, parts) == [] <==> parts == []
  {
    if |parts| > 1 {
      assert Join(sep, parts) == parts[0] + sep + Join(sep, parts[1..]);
    }
  }

  /** Dropping empty parts does not change their concatenation. */
  lemma {:induction false} ConcatNonEmpty(parts: seq<string>)
    ensures Concat(NonEmpty(parts)) == Concat(parts)
  {
    if parts != [] {
      ConcatNonEmpty(parts[1..]);
    }
  }

  lemma {:induction false} NonEmptyAppend(a: seq<string>, b: seq<string>)
    ensures NonEmpty(a + b) == NonEmpty(a) + NonEmpty(b)
  {
    if a == [] {
      assert a + b == b;
    } else {
      NonEmptyAppend(a[1..], b);
      assert (a + b)[1..] == a[1..] + b;
      if a[0] != [] {
        AppendAssoc([a[0]], NonEmpty(a[1..]), NonEmpty(b));
      }
    }
  }

  /** `s.split(c)` for a one-character separator. */
  function Split(s: string, c: char): (r: seq<string>)
    ensures |r| >= 1
    ensures forall k :: 0 <= k < |r| ==> c !in r[k]
    decreases |s|
  {
    if c !in s then [s]
    else
      var i := IndexOf(s, c);
      [s[..i]] + Split(s[i + 1..], c)
  }

  /** Joining the pieces of a split with the separator gives the string back. */
  lemma {:induction false} JoinSplit(s: string, c: char)
    ensures Join([c], Split(s, c)) == s
    decreases |s|
  {
    if c in s {
      var i := IndexOf(s, c);
      JoinSplit(s[i + 1..], c);
      JoinCons([c], s[..i], Split(s[i + 1..], c));
      assert s == s[..i] + [c] + s[i + 1..];
    }
  }

  /** Splitting a join of separator-free pieces gives the pieces back. */
  lemma {:induction false} SplitJoin(parts: seq<string>, c: char)
    requires parts != []
    requires forall k :: 0 <= k < |parts| ==> c !in parts[k]
    ensures Split(Join([c], parts), c) == parts
  {
    if |parts| > 1 {
      var s := Join([c], parts);
      var rest := Join([c], parts[1..]);
      assert s == parts[0] + [c] + rest;
      assert s[|parts[0]|] == c;
      assert IndexOf(s, c) == |parts[0]| by {
        assert c !in s[..|parts[0]|] by { assert s[..|parts[0]|] == parts[0]; }
      }
      assert s[|parts[0]| + 1..] == rest;
      assert s[..|parts[0]|] == parts[0];
      SplitJoin(parts[1..], c);
    }
  }

  /** Regrouping a concatenation, which the solver does not do cheaply on its own. */
  lemma AppendAssoc<T>(a: seq<T>, b: seq<T>, c: seq<T>)
    ensures (a + b) + c == a + (b + c)
  {
  }

  /** `s.count(c)` for one character. */
  function CountChar(s: string, c: char): nat {
    if s == [] then 0 else (if s[0] == c then 1 else 0) + CountChar(s[1..], c)
  }

  lemma {:induction false} CountCharAppend(a: string, b: string, c: char)
    ensures CountChar(a + b, c) == CountChar(a, c) + CountChar(b, c)
  {
    if a != [] {
      assert (a + b)[1..] == a[1..] + b;
      CountCharAppend(a[1..], b, c);
    } else {
      assert a + b == b;
    }
  }

  lemma {:induction false} CountCharAbsent(s: string, c: char)
    requires c !in s
    ensures CountChar(s, c) == 0
  {
    if s != [] {
      assert c !in s[1..] by { assert forall k :: 0 <= k < |s[1..]| ==> s[1..][k] == s[k + 1]; }
      CountCharAbsent(s[1..], c);
    }
  }

  /** A join of pieces none of which, nor the separator, holds `c` does not hold `c`. */
  lemma {:induction false} JoinAvoids(sep: string, parts: seq<string>, c: char)
    requires c !in sep && forall k :: 0 <= k < |parts| ==> c !in parts[k]
    ensures c !in Join(sep, parts)
  {
    if |parts| > 1 {
      JoinAvoids(sep, parts[1..], c);
      assert Join(sep, parts) == parts[0] + sep + Join(sep, parts[1..]);
    }
  }

  /** `s.replace(c, rep)` for a one-character pattern. */
  function ReplaceChar(s: string, c: char, rep: string): (r: string)
    ensures c !in rep ==> c !in r
    ensures c !in s ==> r == s
  {
    if s == [] then []
    else (if s[0] == c then rep else [s[0]]) + ReplaceChar(s[1..], c, rep)
  }

  /** The characters `str.splitlines()` breaks on. */
  predicate IsLineBreak(c: char) {
    ('\n' <= c <= '\r') || ('\U{1C}' <= c <= '\U{1E}') || c == '\U{85}'
    || c == '\U{2028}' || c == '\U{2029}'
  }

  predicate HasLineBreak(s: string) {
    exists i :: 0 <= i < |s| && IsLineBreak(s[i])
  }

  function FirstLineBreak(s: string): (i: nat)
    requires HasLineBreak(s)
    ensures i < |s| && IsLineBreak(s[i])
    ensures forall k :: 0 <= k < i ==> !IsLineBreak(s[k])
  {
    if IsLineBreak(s[0]) then 0
    else
      assert HasLineBreak(s[1..]) by {
        var j :| 0 <= j < |s| && IsLineBreak(s[j]);
        assert s[1..][j - 1] == s[j];
      }
      1 + FirstLineBreak(s[1..])
  }

  /** The first line break is the one at `n` when none comes before it. */
  lemma FirstLineBreakAt(s: string, n: nat)
    requires n < |s| && IsLineBreak(s[n])
    requires forall k :: 0 <= k < n ==> !IsLineBreak(s[k])
    ensures HasLineBreak(s) && FirstLineBreak(s) == n
  {
  }

  /** `s.splitlines()`: lines without their terminators; `\r\n` is one terminator. */
  function SplitLines(s: string): (r: seq<string>)
    ensures forall k :: 0 <= k < |r| ==> !HasLineBreak(r[k])
    decreases |s|
  {
    if s == [] then []
    else if !HasLineBreak(s) then [s]
    else
      var i := FirstLineBreak(s);
      var skip := if s[i] == '\r' && i + 1 < |s| && s[i + 1] == '\n' then 2 else 1;
      assert !HasLineBreak(s[..i]);
      [s[..i]] + SplitLines(s[i + skip..])
  }

  /**
   * `s.lower()` as far as comparisons with ASCII constants can tell: A-Z and the
   * Kelvin sign U+212A become a-z; other characters are left as they are.
   */
  function LowerChar(c: char): char {
    if 'A' <= c <= 'Z' then (c as int + 32) as char
    else if c == '\U{212A}' then 'k'
    else c
  }

  function Lower(s: string): (r: string)
    ensures |r| == |s|
    ensures forall i :: 0 <= i < |s| ==> r[i] == LowerChar(s[i])
  {
    if s == [] then [] else [LowerChar(s[0])] + Lower(s[1..])
  }

  /** Lower-casing a string that is already lower-case ASCII leaves it unchanged. */
  lemma LowerIdempotent(s: string)
    ensures Lower(Lower(s)) == Lower(s)
  {
  }

  function DigitChar(d: nat): char
    requires d < 10
  {
    ('0' as int + d) as char
  }

  function NatToStr(n: nat): (r: string)
    ensures r != []
    ensures forall i :: 0 <= i < |r| ==> '0' <= r[i] <= '9'
  {
    if n < 10 then [DigitChar(n)] else NatToStr(n / 10) + [DigitChar(n % 10)]
  }

  /** `str(n)` for an int. */
  function IntToStr(n: int): (r: string)
    ensures r != []
  {
    if n < 0 then "-" + NatToStr(-n) else NatToStr(n)
  }

  /** `os.path.basename(p)` on POSIX: everything after the last '/'. */
  function Basename(p: string): (r: string)
    ensures '/' !in r
    ensures |r| <= |p| && r == p[|p| - |r|..]
  {
    p[RFind(p, '/') + 1..]
  }

  /**
   * `os.path.splitext(p)` on POSIX: the extension starts at the last '.' of the
   * last path component, unless every character before that dot in the
   * component is also a dot (so ".bashrc" and "..x" have no extension).
   */
  function SplitExt(p: string): (r: (string, string))
    ensures r.0 + r.1 == p
    ensures r.1 == [] || (r.1[0] == '.' && '.' !in r.1[1..] && '/' !in r.1)
  {
    var dot := RFind(p, '.');
    var sep := RFind(p, '/');
    if dot > sep && exists k :: sep < k < dot && p[k] != '.' then
      assert p == p[..dot] + p[dot..];
      assert '.' !in p[dot..][1..] by {
        forall k | 0 <= k < |p[dot..][1..]| ensures p[dot..][1..][k] != '.' {
          assert p[dot..][1..][k] == p[dot + 1 + k];
        }
      }
      (p[..dot], p[dot..])
    else
      (p, [])
  }
}
