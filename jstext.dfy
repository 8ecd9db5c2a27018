/**
 * The JavaScript string built-ins the core relies on (`String.prototype.trim`,
 * `indexOf`, `substring`, `split("\n")`, `join("\n")`), over strings as
 * sequences of Unicode code points (`seq<char>`) rather than of UTF-16 code
 * units.
 */
module JsText {

  /** The ECMAScript WhiteSpace and LineTerminator code points that `trim`
      removes. */
  predicate IsWhitespace(c: char)
  {
    || c == '\t' || c == '\n' || c == '\U{000B}' || c == '\U{000C}' || c == '\r'
    || c == ' ' || c == '\U{00A0}' || c == '\U{1680}' || ('\U{2000}' <= c <= '\U{200A}')
    || c == '\U{2028}' || c == '\U{2029}' || c == '\U{202F}' || c == '\U{205F}'
    || c == '\U{3000}' || c == '\U{FEFF}'
  }

  predicate AllWhitespace(s: string)
  {
    forall i :: 0 <= i < |s| ==> IsWhitespace(s[i])
  }

  /** A whitespace character in front of a whitespace run extends it. */
  lemma WhitespaceCons(s: string, m: nat)
    requires m < |s| && IsWhitespace(s[0]) && AllWhitespace(s[1..][..m])
    ensures AllWhitespace(s[..m + 1])
  {
    var run := s[..m + 1];
    forall i | 0 <= i < |run| ensures IsWhitespace(run[i]) {
      if i > 0 {
        assert run[i] == s[1..][..m][i - 1];
      }
    }
  }

  /** A whitespace character after a whitespace run extends it. */
  lemma WhitespaceSnoc(s: string, m: nat)
    requires m < |s| && IsWhitespace(s[|s| - 1]) && AllWhitespace(s[..|s| - 1][m..])
    ensures AllWhitespace(s[m..])
  {
    forall i | 0 <= i < |s| - m ensures IsWhitespace(s[m..][i]) {
      if i < |s| - 1 - m {
        assert s[m..][i] == s[..|s| - 1][m..][i];
      }
    }
  }

  function TrimStart(s: string): (r: string)
    ensures |r| <= |s| && r == s[|s| - |r|..]
    ensures AllWhitespace(s[..|s| - |r|])
    ensures r == [] || !IsWhitespace(r[0])
  {
    if s == [] || !IsWhitespace(s[0]) then s
    else
      var r := TrimStart(s[1..]);
      WhitespaceCons(s, |s[1..]| - |r|);
      r
  }

  function TrimEnd(s: string): (r: string)
    ensures |r| <= |s| && r == s[..|r|]
    ensures AllWhitespace(s[|r|..])
    ensures r == [] || !IsWhitespace(r[|r| - 1])
  {
    if s == [] || !IsWhitespace(s[|s| - 1]) then s
    else
      var r := TrimEnd(s[..|s| - 1]);
      WhitespaceSnoc(s, |r|);
      r
  }

  /** `s.trim()`: the longest slice of `s` with no whitespace at either end. */
  function Trim(s: string): string
  {
    TrimEnd(TrimStart(s))
  }

  /** `s.trim()` is a slice of `s` that drops only whitespace and keeps no
      whitespace at either end. */
  lemma TrimIsSlice(s: string)
    ensures exists i, j :: 0 <= i <= j <= |s| && Trim(s) == s[i..j]
              && AllWhitespace(s[..i]) && AllWhitespace(s[j..])
    ensures Trim(s) == [] || (!IsWhitespace(Trim(s)[0]) && !IsWhitespace(Trim(s)[|Trim(s)| - 1]))
  {
    var t := TrimStart(s);
    var i := |s| - |t|;
    TrimEndOfSuffix(s, i);
    var j := i + |Trim(s)|;
    assert Trim(s) == s[i..j] && AllWhitespace(s[..i]) && AllWhitespace(s[j..]);
  }

  /** Trimming the end of the suffix `s[i..]` leaves a slice `s[i..j]`
      followed by whitespace only. */
  lemma TrimEndOfSuffix(s: string, i: nat)
    requires i <= |s|
    ensures var e := TrimEnd(s[i..]);
      && i + |e| <= |s| && e == s[i..i + |e|] && AllWhitespace(s[i + |e|..])
  {
    var t := s[i..];
    var e := TrimEnd(t);
    assert t[|e|..] == s[i + |e|..];
  }

  /** Text with no whitespace at either end is its own trim. */
  lemma TrimKeepsUnpadded(s: string)
    requires s != [] && !IsWhitespace(s[0]) && !IsWhitespace(s[|s| - 1])
    ensures Trim(s) == s
  {
    assert TrimStart(s) == s;
  }

  /** A name is blank after trimming exactly when it is all whitespace. */
  lemma TrimEmptyIffBlank(s: string)
    ensures Trim(s) == [] <==> AllWhitespace(s)
  {
    var t := TrimStart(s);
    if Trim(s) == [] {
      assert t == [];
      assert s[..|s|] == s;
    }
  }

  /** Trimming twice is trimming once. */
  lemma TrimIdempotent(s: string)
    ensures Trim(Trim(s)) == Trim(s)
  {
    TrimIsSlice(s);
    var t := Trim(s);
    assert t == [] || !IsWhitespace(t[0]);
    assert TrimStart(t) == t;
    assert t == [] || !IsWhitespace(t[|t| - 1]);
  }

  /** `pat` occurs in `s` at index `i`. */
  predicate MatchAt(s: string, pat: string, i: int)
  {
    0 <= i && i + |pat| <= |s| && s[i..i + |pat|] == pat
  }

  function IndexFrom(s: string, pat: string, k: nat): (r: int)
    requires k <= |s|
    ensures r == -1 || (k <= r && MatchAt(s, pat, r))
    ensures r == -1 ==> forall j :: k <= j ==> !MatchAt(s, pat, j)
    ensures r != -1 ==> forall j :: k <= j < r ==> !MatchAt(s, pat, j)
    decreases |s| - k
  {
    if k + |pat| > |s| then -1
    else if s[k..k + |pat|] == pat then k
    else IndexFrom(s, pat, k + 1)
  }

  /** The start position `indexOf` searches from: `from` clamped into
      `0..n`. */
  function Clamp(from: int, n: nat): (k: nat)
    ensures k <= n
  {
    if from < 0 then 0 else if from > n then n else from
  }

  /** `s.indexOf(pat, from)`: the first occurrence of `pat` at or after
      `from` (clamped into `0..|s|`), or -1. */
  function IndexOf(s: string, pat: string, from: int): (r: int)
    ensures r >= -1
    ensures r == -1 <==> forall j :: Clamp(from, |s|) <= j ==> !MatchAt(s, pat, j)
    ensures r != -1 ==>
              && Clamp(from, |s|) <= r && MatchAt(s, pat, r)
              && forall j :: Clamp(from, |s|) <= j < r ==> !MatchAt(s, pat, j)
  {
    IndexFrom(s, pat, Clamp(from, |s|))
  }

  /** `s.substring(start)`, with `start` clamped into `0..|s|`. */
  function SubstringFrom(s: string, start: int): (r: string)
    ensures 0 <= start <= |s| ==> r == s[start..]
    ensures start > |s| ==> r == []
    ensures start < 0 ==> r == s
  {
    if start < 0 then s else if start > |s| then [] else s[start..]
  }

  /** `s.split("\n")`: the lines of `s`; there is always at least one. */
  function Split(s: string): (r: seq<string>)
    ensures |r| >= 1
    ensures forall i :: 0 <= i < |r| ==> '\n' !in r[i]
  {
    if s == [] then [""]
    else
      var rest := Split(s[1..]);
      if s[0] == '\n' then [""] + rest
      else [[s[0]] + rest[0]] + rest[1..]
  }

  /** `lines.join("\n")`. */
  function Join(lines: seq<string>): string
    requires |lines| >= 1
  {
    if |lines| == 1 then lines[0] else lines[0] + "\n" + Join(lines[1..])
  }

  /** Joining the lines of `s` gives back `s`. */
  lemma {:induction false} JoinSplit(s: string)
    ensures Join(Split(s)) == s
  {
    if s != [] {
      var rest := Split(s[1..]);
      JoinSplit(s[1..]);
      if s[0] != '\n' {
        if |rest| > 1 {
          assert Join(rest) == rest[0] + "\n" + Join(rest[1..]);
        }
        assert [[s[0]] + rest[0]] + rest[1..] == Split(s);
      }
    }
  }

  /** Splitting joined lines that hold no line break gives back the lines. */
  lemma {:induction false} SplitJoin(lines: seq<string>)
    requires |lines| >= 1
    requires forall i :: 0 <= i < |lines| ==> '\n' !in lines[i]
    ensures Split(Join(lines)) == lines
  {
    if |lines| == 1 {
      SplitSingleLine(lines[0]);
    } else {
      SplitJoin(lines[1..]);
      SplitLine(lines[0], lines[1..]);
      assert lines == [lines[0]] + lines[1..];
    }
  }

  /** A text without a line break is a single line. */
  lemma {:induction false} SplitSingleLine(line: string)
    requires '\n' !in line
    ensures Split(line) == [line]
  {
    if line != [] {
      SplitSingleLine(line[1..]);
      assert line == [line[0]] + line[1..];
    }
  }

  /** A line without a break in front of a newline and more lines. */
  lemma {:induction false} SplitLine(line: string, more: seq<string>)
    requires '\n' !in line
    requires |more| >= 1 && Split(Join(more)) == more
    ensures Split(line + "\n" + Join(more)) == [line] + more
  {
    var s := line + "\n" + Join(more);
    if line == [] {
      assert s == "\n" + Join(more);
      assert s[1..] == Join(more);
    } else {
      SplitLine(line[1..], more);
      assert line[0] != '\n' && line == [line[0]] + line[1..];
      assert s[0] == line[0];
      assert s[1..] == line[1..] + "\n" + Join(more);
    }
  }
}
