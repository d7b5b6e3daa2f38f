/**
 * The Python `str` operations the widget relies on, written out so that their
 * edge cases are those of CPython: `startswith`, `in` / `index` (first
 * occurrence), `strip()` with no argument, `splitlines()` and `split(sep)`.
 */
module Text {
  import opened Wrappers

  /** `s.startswith(p)`. */
  predicate StartsWith(s: string, p: string) {
    |p| <= |s| && s[..|p|] == p
  }

  /** `p` occurs in `s` at position `i`. */
  predicate MatchAt(s: string, p: string, i: nat) {
    i + |p| <= |s| && s[i..i + |p|] == p
  }

  /** The first position at or after `from` where `p` occurs in `s`, if any. */
  function FindFrom(s: string, p: string, from: nat): (r: Option<nat>)
    ensures r.Some? ==> from <= r.value && r.value + |p| <= |s|
    decreases |s| - from
  {
    if from + |p| > |s| then None
    else if s[from..from + |p|] == p then Some(from)
    else FindFrom(s, p, from + 1)
  }

  /**
   * `s.index(p)` when `p in s`, and `None` when `p not in s`: the two Python
   * tests the parser makes on each line are answered by this one search.
   */
  function Find(s: string, p: string): (r: Option<nat>)
    ensures r.Some? ==> r.value + |p| <= |s|
  {
    FindFrom(s, p, 0)
  }

  /** The search from `from` finds the first occurrence at or after `from`, and nothing when there is none. */
  lemma {:induction false} FindFromSpec(s: string, p: string, from: nat)
    ensures var r := FindFrom(s, p, from);
      (r.Some? ==> MatchAt(s, p, r.value) && forall j :: from <= j < r.value ==> !MatchAt(s, p, j))
      && (r.None? <==> forall j :: from <= j ==> !MatchAt(s, p, j))
    decreases |s| - from
  {
    if from + |p| <= |s| {
      if s[from..from + |p|] == p {
        assert MatchAt(s, p, from);
      } else {
        FindFromSpec(s, p, from + 1);
      }
    }
  }

  /** `Find` gives the first occurrence of `p` in `s`, and `None` exactly when `p` does not occur. */
  lemma FindSpec(s: string, p: string)
    ensures Find(s, p).Some? ==> MatchAt(s, p, Find(s, p).value) && forall j :: 0 <= j < Find(s, p).value ==> !MatchAt(s, p, j)
    ensures Find(s, p).None? <==> forall j :: 0 <= j ==> !MatchAt(s, p, j)
  {
    FindFromSpec(s, p, 0);
  }

  /** The characters for which CPython's `str.isspace()` holds. */
  predicate IsSpace(c: char) {
    c in {'\t', '\n', '\U{000B}', '\U{000C}', '\r', '\U{001C}', '\U{001D}', '\U{001E}', '\U{001F}', ' ',
          '\U{0085}', '\U{00A0}', '\U{1680}', '\U{2028}', '\U{2029}', '\U{202F}', '\U{205F}', '\U{3000}'}
    || ('\U{2000}' <= c <= '\U{200A}')
  }

  /** `s.lstrip()`: `s` without its leading whitespace. */
  function TrimStart(s: string): string
  {
    if s != [] && IsSpace(s[0]) then TrimStart(s[1..]) else s
  }

  /** `s.rstrip()`: `s` without its trailing whitespace. */
  function TrimEnd(s: string): string
  {
    if s != [] && IsSpace(s[|s| - 1]) then TrimEnd(s[..|s| - 1]) else s
  }

  /** `s.strip()`. */
  function Strip(s: string): string
  {
    TrimEnd(TrimStart(s))
  }

  /** What `lstrip` cuts is whitespace, and what it keeps is a suffix that does not start with whitespace. */
  lemma {:induction false} TrimStartSpec(s: string)
    ensures var r := TrimStart(s);
      |r| <= |s| && r == s[|s| - |r|..]
      && (forall k :: 0 <= k < |s| - |r| ==> IsSpace(s[k]))
      && (r == [] || !IsSpace(r[0]))
  {
    if s != [] && IsSpace(s[0]) {
      var t := s[1..];
      TrimStartSpec(t);
      var r := TrimStart(t);
      assert t[|t| - |r|..] == s[|s| - |r|..];
      forall k | 0 <= k < |s| - |r| ensures IsSpace(s[k]) {
        if k > 0 { assert s[k] == t[k - 1]; }
      }
    }
  }

  /** What `rstrip` cuts is whitespace, and what it keeps is a prefix that does not end with whitespace. */
  lemma {:induction false} TrimEndSpec(s: string)
    ensures var r := TrimEnd(s);
      |r| <= |s| && r == s[..|r|]
      && (forall k :: |r| <= k < |s| ==> IsSpace(s[k]))
      && (r == [] || !IsSpace(r[|r| - 1]))
  {
    if s != [] && IsSpace(s[|s| - 1]) {
      var t := s[..|s| - 1];
      TrimEndSpec(t);
      var r := TrimEnd(t);
      assert t[..|r|] == s[..|r|];
      forall k | |r| <= k < |s| ensures IsSpace(s[k]) {
        if k < |s| - 1 { assert s[k] == t[k]; }
      }
    }
  }

  /** `r` is `s` with `a` whitespace characters cut from the front and only whitespace cut from the back. */
  ghost predicate StrippedAt(s: string, a: nat, r: string) {
    a + |r| <= |s| && s[a..a + |r|] == r
    && (forall k :: 0 <= k < a ==> IsSpace(s[k]))
    && (forall k :: a + |r| <= k < |s| ==> IsSpace(s[k]))
  }

  /**
   * `strip` keeps the longest slice of `s` that neither starts nor ends with
   * whitespace, cutting only whitespace; it is empty exactly when `s` is all
   * whitespace.
   */
  lemma StripSpec(s: string)
    ensures var r := Strip(s);
      (r == [] || (!IsSpace(r[0]) && !IsSpace(r[|r| - 1])))
      && (exists a :: StrippedAt(s, a, r))
      && ((forall k :: 0 <= k < |s| ==> IsSpace(s[k])) <==> r == [])
  {
    var t := TrimStart(s);
    var r := TrimEnd(t);
    TrimStartSpec(s);
    TrimEndSpec(t);
    var a := |s| - |t|;
    forall k | a + |r| <= k < |s| ensures IsSpace(s[k]) {
      assert s[k] == t[k - a];
    }
    assert s[a..a + |r|] == t[..|r|];
    assert StrippedAt(s, a, r);
    if r != [] {
      assert r[0] == t[0] == s[a];
    }
  }

  /** The characters at which CPython's `str.splitlines()` ends a line. */
  predicate IsLineBreak(c: char) {
    c == '\n' || c == '\r' || c == '\U{000B}' || c == '\U{000C}' || c == '\U{001C}'
    || c == '\U{001D}' || c == '\U{001E}' || c == '\U{0085}' || c == '\U{2028}' || c == '\U{2029}'
  }

  /** The index of the first line break at or after `i`, or `|s|` when there is none. */
  function LineEnd(s: string, i: nat): (r: nat)
    requires i <= |s|
    ensures i <= r <= |s|
    ensures r < |s| ==> IsLineBreak(s[r])
    ensures forall k :: i <= k < r ==> !IsLineBreak(s[k])
    decreases |s| - i
  {
    if i == |s| || IsLineBreak(s[i]) then i else LineEnd(s, i + 1)
  }

  /** How many characters the line break at `j` occupies: `"\r\n"` counts as one break. */
  function BreakWidth(s: string, j: nat): (w: nat)
    requires j < |s|
  {
    if s[j] == '\r' && j + 1 < |s| && s[j + 1] == '\n' then 2 else 1
  }

  /**
   * `s.splitlines()`: the lines of `s` without their line breaks; a final line
   * break does not open an empty last line, and the empty string has no lines.
   */
  function SplitLines(s: string): (r: seq<string>)
    ensures s == [] <==> r == []
    decreases |s|
  {
    if s == [] then []
    else
      var e := LineEnd(s, 0);
      if e == |s| then [s]
      else [s[..e]] + SplitLines(s[e + BreakWidth(s, e)..])
  }

  /** A line terminator as `splitlines()` reads one: a single line-break character, or `"\r\n"`. */
  predicate IsBreak(b: string) {
    (|b| == 1 && IsLineBreak(b[0])) || (|b| == 2 && b[0] == '\r' && b[1] == '\n')
  }

  /** `t` does not start with `"\n"`. */
  predicate NoLeadingLf(t: string) {
    t == [] || t[0] != '\n'
  }

  /** Each line followed by its terminator, all concatenated. */
  function Unlines(lines: seq<string>, breaks: seq<string>): string
    requires |lines| == |breaks|
    decreases |lines|
  {
    if lines == [] then "" else lines[0] + breaks[0] + Unlines(lines[1..], breaks[1..])
  }

  /**
   * `lines`, each ended by the terminator in `breaks`, is a reading of `s` as
   * `splitlines()` reads it: together they give back `s`; no line holds a
   * line-break character; every line but the last has a terminator, and the
   * last has one unless it is non-empty and runs to the end of `s`; and a lone
   * `"\r"` is never followed by `"\n"`, which would have made the pair one
   * terminator.
   */
  ghost predicate ReadsAsLines(s: string, lines: seq<string>, breaks: seq<string>) {
    |breaks| == |lines| && Unlines(lines, breaks) == s
    && (forall k :: 0 <= k < |lines| ==> NoBreakIn(lines[k]))
    && (forall k :: 0 <= k < |lines| - 1 ==> IsBreak(breaks[k]))
    && LastTerminated(lines, breaks)
    && CrLfKept(lines, breaks)
  }

  /** The terminators `splitlines()` cuts, one per line; the last is empty when the text does not end with one. */
  ghost function LineBreaks(s: string): (r: seq<string>)
    ensures |r| == |SplitLines(s)|
    decreases |s|
  {
    if s == [] then []
    else
      var e := LineEnd(s, 0);
      if e == |s| then [""]
      else [s[e..e + BreakWidth(s, e)]] + LineBreaks(s[e + BreakWidth(s, e)..])
  }

  /** When the text holds a line break, `splitlines()` cuts the first line and its terminator and reads on after them. */
  lemma SplitLinesCons(s: string)
    requires LineEnd(s, 0) < |s|
    ensures var e := LineEnd(s, 0); var w := BreakWidth(s, e);
      SplitLines(s) == [s[..e]] + SplitLines(s[e + w..]) && LineBreaks(s) == [s[e..e + w]] + LineBreaks(s[e + w..])
  {
  }

  /** Putting one line and its terminator in front puts them in front of the rejoined text. */
  lemma UnlinesCons(l: string, b: string, lines: seq<string>, breaks: seq<string>)
    requires |lines| == |breaks|
    ensures Unlines([l] + lines, [b] + breaks) == l + b + Unlines(lines, breaks)
  {
    assert ([l] + lines)[1..] == lines && ([b] + breaks)[1..] == breaks;
  }

  /** `l` holds no line-break character. */
  predicate NoBreakIn(l: string) {
    forall j :: 0 <= j < |l| ==> !IsLineBreak(l[j])
  }

  /** No line `splitlines()` gives holds a line-break character. */
  lemma {:induction false} SplitLinesClean(s: string)
    ensures forall k :: 0 <= k < |SplitLines(s)| ==> NoBreakIn(SplitLines(s)[k])
    decreases |s|
  {
    if s != [] {
      var e := LineEnd(s, 0);
      assert NoBreakIn(s[..e]);
      if e == |s| {
        assert s[..e] == s;
      } else {
        var rest := s[e + BreakWidth(s, e)..];
        SplitLinesClean(rest);
        SplitLinesCons(s);
        var lines, tail := SplitLines(s), SplitLines(rest);
        forall k | 0 <= k < |lines| ensures NoBreakIn(lines[k]) {
          if k > 0 { assert lines[k] == tail[k - 1]; }
        }
      }
    }
  }

  /** The lines and the terminators `splitlines()` cut give back the text. */
  lemma {:induction false} UnlinesSplitLines(s: string)
    ensures Unlines(SplitLines(s), LineBreaks(s)) == s
    decreases |s|
  {
    if s != [] {
      var e := LineEnd(s, 0);
      if e < |s| {
        var w := BreakWidth(s, e);
        var rest := s[e + w..];
        UnlinesSplitLines(rest);
        SplitLinesCons(s);
        UnlinesCons(s[..e], s[e..e + w], SplitLines(rest), LineBreaks(rest));
        CutTwice(s, e, e + w);
      }
    }
  }

  /** Cutting a string at two positions and putting the three pieces back together gives the string. */
  lemma CutTwice(s: string, i: nat, j: nat)
    requires i <= j <= |s|
    ensures s[..i] + s[i..j] + s[j..] == s
  {
    assert s[..i] + s[i..j] == s[..j];
  }

  /** The terminator after the first line, when there is one, is a terminator, and is a lone `"\r"` only when no `"\n"` follows. */
  lemma FirstBreak(s: string)
    requires LineEnd(s, 0) < |s|
    ensures var e := LineEnd(s, 0); var w := BreakWidth(s, e);
      IsBreak(s[e..e + w]) && (s[e..e + w] == ['\r'] ==> NoLeadingLf(s[e + w..]))
  {
    var e := LineEnd(s, 0);
    if BreakWidth(s, e) == 2 {
      assert s[e..e + 2] == [s[e], s[e + 1]];
    } else {
      assert s[e..e + 1] == [s[e]];
      if s[e] == '\r' && e + 1 < |s| {
        assert s[e + 1..][0] == s[e + 1];
      }
    }
  }

  /** Every terminator `splitlines()` cuts, except perhaps the last, is one. */
  lemma {:induction false} LineBreaksAreBreaks(s: string)
    ensures forall k :: 0 <= k < |LineBreaks(s)| - 1 ==> IsBreak(LineBreaks(s)[k])
    decreases |s|
  {
    if s != [] {
      var e := LineEnd(s, 0);
      if e < |s| {
        var w := BreakWidth(s, e);
        var rest := s[e + w..];
        LineBreaksAreBreaks(rest);
        FirstBreak(s);
        var breaks, more := LineBreaks(s), LineBreaks(rest);
        assert breaks == [s[e..e + w]] + more;
        forall k | 0 <= k < |breaks| - 1 ensures IsBreak(breaks[k]) {
          if k > 0 { assert breaks[k] == more[k - 1]; }
        }
      }
    }
  }

  /** The last of `lines` has a terminator, or is non-empty and has none. */
  predicate LastTerminated(lines: seq<string>, breaks: seq<string>)
    requires |lines| == |breaks|
  {
    lines != [] ==> IsBreak(breaks[|lines| - 1]) || (breaks[|lines| - 1] == [] && lines[|lines| - 1] != [])
  }

  /** A terminated line put before lines whose last is terminated keeps the last one terminated. */
  lemma LastTerminatedCons(l: string, b: string, lines: seq<string>, breaks: seq<string>)
    requires |lines| == |breaks| && IsBreak(b) && LastTerminated(lines, breaks)
    ensures LastTerminated([l] + lines, [b] + breaks)
  {
    if lines != [] {
      assert ([l] + lines)[|lines|] == lines[|lines| - 1] && ([b] + breaks)[|lines|] == breaks[|lines| - 1];
    }
  }

  /** The last line `splitlines()` gives has a terminator, or is non-empty and runs to the end of the text. */
  lemma {:induction false} LastLineBreak(s: string)
    ensures LastTerminated(SplitLines(s), LineBreaks(s))
    decreases |s|
  {
    if s != [] {
      var e := LineEnd(s, 0);
      if e < |s| {
        var w := BreakWidth(s, e);
        var rest := s[e + w..];
        LastLineBreak(rest);
        FirstBreak(s);
        var lines, breaks := SplitLines(s), LineBreaks(s);
        var tail, more := SplitLines(rest), LineBreaks(rest);
        assert lines == [s[..e]] + tail && breaks == [s[e..e + w]] + more;
        LastTerminatedCons(s[..e], s[e..e + w], tail, more);
      }
    }
  }

  /** No terminator in `breaks` is a lone `"\r"` followed by `"\n"`. */
  predicate CrLfKept(lines: seq<string>, breaks: seq<string>)
    requires |lines| == |breaks|
  {
    forall k :: 0 <= k < |lines| && breaks[k] == ['\r'] ==> NoLeadingLf(Unlines(lines[k + 1..], breaks[k + 1..]))
  }

  /** A line whose terminator is not a lone `"\r"` before `"\n"`, put in front, keeps `CrLfKept`. */
  lemma CrLfKeptCons(l: string, b: string, lines: seq<string>, breaks: seq<string>)
    requires |lines| == |breaks| && CrLfKept(lines, breaks)
    requires b == ['\r'] ==> NoLeadingLf(Unlines(lines, breaks))
    ensures CrLfKept([l] + lines, [b] + breaks)
  {
    var ls, bs := [l] + lines, [b] + breaks;
    forall k | 0 <= k < |ls| && bs[k] == ['\r'] ensures NoLeadingLf(Unlines(ls[k + 1..], bs[k + 1..])) {
      assert ls[k + 1..] == lines[k..] && bs[k + 1..] == breaks[k..];
      if k > 0 { assert bs[k] == breaks[k - 1]; }
    }
  }

  /** `splitlines()` never cuts a lone `"\r"` right before a `"\n"`. */
  lemma {:induction false} LineBreaksKeepCrLf(s: string)
    ensures CrLfKept(SplitLines(s), LineBreaks(s))
    decreases |s|
  {
    if s != [] {
      var e := LineEnd(s, 0);
      if e < |s| {
        var w := BreakWidth(s, e);
        var rest := s[e + w..];
        LineBreaksKeepCrLf(rest);
        UnlinesSplitLines(rest);
        FirstBreak(s);
        SplitLinesCons(s);
        CrLfKeptCons(s[..e], s[e..e + w], SplitLines(rest), LineBreaks(rest));
      }
    }
  }

  /** The lines `splitlines()` gives, ended by the terminators it cut, are a reading of the text as lines. */
  lemma SplitLinesRejoin(s: string) returns (breaks: seq<string>)
    ensures ReadsAsLines(s, SplitLines(s), breaks)
  {
    breaks := LineBreaks(s);
    UnlinesSplitLines(s);
    LineBreaksAreBreaks(s);
    LastLineBreak(s);
    LineBreaksKeepCrLf(s);
    SplitLinesClean(s);
  }

  /** Any reading of `s` as lines and terminators is the one `splitlines()` gives. */
  lemma {:induction false} ReadsAsLinesIsSplitLines(s: string, lines: seq<string>, breaks: seq<string>)
    requires ReadsAsLines(s, lines, breaks)
    ensures lines == SplitLines(s)
    decreases |lines|
  {
    if lines != [] {
      var l, b := lines[0], breaks[0];
      var rest := Unlines(lines[1..], breaks[1..]);
      assert s == l + b + rest;
      LineEndIsLength(s, l);
      if b != [] {
        var e := |l|;
        assert s[e] == b[0];
        if b == ['\r'] {
          if e + 1 < |s| { assert s[e + 1] == rest[0]; }
        }
        assert BreakWidth(s, e) == |b|;
        assert s[e + |b|..] == rest;
        ReadsAsLinesTail(s, lines, breaks);
        ReadsAsLinesIsSplitLines(rest, lines[1..], breaks[1..]);
        assert lines == [l] + lines[1..];
      }
    }
  }

  /** What follows the first line and its terminator is read by the remaining lines and terminators. */
  lemma ReadsAsLinesTail(s: string, lines: seq<string>, breaks: seq<string>)
    requires ReadsAsLines(s, lines, breaks) && lines != []
    ensures ReadsAsLines(Unlines(lines[1..], breaks[1..]), lines[1..], breaks[1..])
  {
    var tail, more := lines[1..], breaks[1..];
    forall k | 0 <= k < |tail| - 1 ensures IsBreak(more[k]) {
      assert more[k] == breaks[k + 1];
    }
    forall k | 0 <= k < |tail| && more[k] == ['\r']
      ensures NoLeadingLf(Unlines(tail[k + 1..], more[k + 1..]))
    {
      assert tail[k + 1..] == lines[k + 2..] && more[k + 1..] == breaks[k + 2..];
      assert more[k] == breaks[k + 1];
    }
    forall k | 0 <= k < |tail| ensures NoBreakIn(tail[k]) {
      assert tail[k] == lines[k + 1];
    }
    if tail != [] {
      assert tail[|tail| - 1] == lines[|lines| - 1] && more[|more| - 1] == breaks[|breaks| - 1];
    }
  }

  /** In `l + b`, where `l` holds no line break and `b` is empty or starts with one, the first line ends at `|l|`. */
  lemma LineEndIsLength(s: string, l: string)
    requires StartsWith(s, l)
    requires forall j :: 0 <= j < |l| ==> !IsLineBreak(l[j])
    requires |l| < |s| ==> IsLineBreak(s[|l|])
    ensures LineEnd(s, 0) == |l|
  {
  }

  /** `s.split([c])`: the pieces of `s` between occurrences of `c`; never empty. */
  function Split(s: string, c: char): (r: seq<string>)
    ensures |r| >= 1
    ensures forall k :: 0 <= k < |r| ==> c !in r[k]
    decreases |s|
  {
    if s == [] then [""]
    else
      var rest := Split(s[1..], c);
      if s[0] == c then [""] + rest else [[s[0]] + rest[0]] + rest[1..]
  }

  /** `[c].join(parts)`. */
  function Join(parts: seq<string>, c: char): string
    decreases |parts|
  {
    if |parts| == 0 then ""
    else if |parts| == 1 then parts[0]
    else parts[0] + [c] + Join(parts[1..], c)
  }

  /** Splitting on `c` and joining back with `c` gives the original string. */
  lemma {:induction false} JoinSplit(s: string, c: char)
    ensures Join(Split(s, c), c) == s
    decreases |s|
  {
    if s != [] {
      var rest := Split(s[1..], c);
      JoinSplit(s[1..], c);
      if s[0] == c {
        assert Split(s, c) == [""] + rest;
        assert ([""] + rest)[1..] == rest;
      } else {
        var r := Split(s, c);
        assert r == [[s[0]] + rest[0]] + rest[1..];
        if |rest| == 1 {
          assert r == [[s[0]] + rest[0]];
        } else {
          assert r[1..] == rest[1..];
          assert Join(rest, c) == rest[0] + [c] + Join(rest[1..], c);
        }
      }
    }
  }

  /** `s.split(c)[-1]`: the text after the last `c` in `s`, or all of `s` when `c` does not occur. */
  function LastPiece(s: string, c: char): (r: string)
  {
    var parts := Split(s, c);
    parts[|parts| - 1]
  }

  /**
   * The last piece is the longest suffix of `s` free of `c`: it contains no
   * `c`, ends `s`, and is preceded by a `c` whenever `s` contains one.
   */
  lemma {:induction false} LastPieceIsSuffix(s: string, c: char)
    ensures c !in LastPiece(s, c)
    ensures |LastPiece(s, c)| <= |s| && s[|s| - |LastPiece(s, c)|..] == LastPiece(s, c)
    ensures c in s ==> |LastPiece(s, c)| < |s| && s[|s| - |LastPiece(s, c)| - 1] == c
    ensures c !in s ==> LastPiece(s, c) == s
    decreases |s|
  {
    if s != [] {
      var rest := Split(s[1..], c);
      LastPieceIsSuffix(s[1..], c);
      var r := Split(s, c);
      if s[0] == c {
        assert r == [""] + rest;
        assert LastPiece(s, c) == LastPiece(s[1..], c);
      } else {
        assert r == [[s[0]] + rest[0]] + rest[1..];
        SplitHasSeveralPieces(s[1..], c);
        if |rest| == 1 {
          assert LastPiece(s, c) == [s[0]] + LastPiece(s[1..], c);
          assert s == [s[0]] + s[1..];
        } else {
          assert LastPiece(s, c) == LastPiece(s[1..], c);
        }
      }
    }
  }

  /** `s.split(c)` has more than one piece exactly when `c` occurs in `s`. */
  lemma SplitHasSeveralPieces(s: string, c: char)
    ensures c in s <==> |Split(s, c)| >= 2
  {
    var parts := Split(s, c);
    JoinSplit(s, c);
    if |parts| >= 2 {
      assert Join(parts, c) == parts[0] + [c] + Join(parts[1..], c);
      assert Join(parts, c)[|parts[0]|] == c;
    }
  }
}
