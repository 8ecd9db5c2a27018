/**
 * scripts/populate.js: its own copy of the selector, the rewrite of the
 * `currentData` literal in the script's own text (`updatePopulateFile`), and
 * the reset of the table from that literal (`populateWithCurrentData`).
 */
module Populate {
  import opened Wrappers
  import opened JsText
  import Selector
  import App

  /** "No temperatures provided" */
  datatype SelectError = NoTemperatures

  /** `findClosestToZero` of this script: only an empty series is refused. */
  method FindClosestToZero(temperatures: seq<real>) returns (r: Result<real, SelectError>)
    ensures temperatures == [] ==> r == Failure(NoTemperatures)
    ensures temperatures != [] ==> r.Success? && Selector.IsClosestToZero(temperatures, r.value)
  {
    if |temperatures| == 0 {
      return Failure(NoTemperatures);
    }
    var closest := Selector.Scan(temperatures);
    return Success(closest);
  }

  /** The text that starts the data array in the script. */
  const Marker: string := "let currentData = ["
  /** The text searched for as the end of the data array. */
  const Close: string := "];"

  /** Every line with two spaces in front. */
  function Prefixed(lines: seq<string>): (r: seq<string>)
    ensures |r| == |lines| && forall i :: 0 <= i < |lines| ==> r[i] == "  " + lines[i]
  {
    seq(|lines|, i requires 0 <= i < |lines| => "  " + lines[i])
  }

  /** Lines without line breaks keep none once prefixed, so splitting
      their join gives them back. */
  lemma PrefixedSplitJoin(lines: seq<string>)
    requires |lines| >= 1
    requires forall i :: 0 <= i < |lines| ==> '\n' !in lines[i]
    ensures Split(Join(Prefixed(lines))) == Prefixed(lines)
  {
    var indented := Prefixed(lines);
    forall i | 0 <= i < |indented| ensures '\n' !in indented[i] {
      assert indented[i] == "  " + lines[i];
    }
    SplitJoin(indented);
  }

  /** `json.split("\n").map(line => "  " + line).join("\n")`: the indented
      text has as many lines as the JSON text, each being the JSON line
      with exactly two spaces in front. */
  function Indent(json: string): (r: string)
    ensures |Split(r)| == |Split(json)|
    ensures forall i :: 0 <= i < |Split(json)| ==> Split(r)[i] == "  " + Split(json)[i]
  {
    PrefixedSplitJoin(Split(json));
    Join(Prefixed(Split(json)))
  }

  /** The replacement text as the script writes it (lines 228-230). */
  function BlockAsWritten(newDataString: string): string
  {
    "let currentData = [\n" + newDataString + "\n];\n"
  }

  /** Lines 219-231 as written: the end is taken as `indexOf("];") + 2`
      before the `-1` test, and the block ends with its own line break. */
  function SpliceAsWritten(content: string, newDataString: string): (r: Option<string>)
    ensures r.Some? <==> IndexOf(content, Marker, 0) != -1
    ensures r.Some? ==>
              var i := IndexOf(content, Marker, 0);
              var j := IndexOf(content, Close, i);
              && (j != -1 ==> r.value == content[..i] + BlockAsWritten(newDataString) + content[j + 2..])
              && (j == -1 ==> r.value == content[..i] + BlockAsWritten(newDataString) + content[1..])
  {
    var dataStart := IndexOf(content, Marker, 0);
    var dataEnd := IndexOf(content, Close, dataStart) + 2;
    if dataStart != -1 && dataEnd != -1 then
      Some(content[..dataStart] + BlockAsWritten(newDataString) + SubstringFrom(content, dataEnd))
    else None
  }

  /** The replacement text with the line break after `];` left to the text
      that followed the old array. */
  function Block(newDataString: string): string
  {
    "let currentData = [\n" + newDataString + "\n];"
  }

  /** The splice as intended: nothing is written unless both the marker and
      a `];` after it are found, and a rerun leaves the text as it is. */
  function Splice(content: string, newDataString: string): (r: Option<string>)
    ensures r.Some? <==>
              IndexOf(content, Marker, 0) != -1 && IndexOf(content, Close, IndexOf(content, Marker, 0)) != -1
  {
    var dataStart := IndexOf(content, Marker, 0);
    if dataStart == -1 then None
    else
      var closeAt := IndexOf(content, Close, dataStart);
      if closeAt == -1 then None
      else Some(content[..dataStart] + Block(newDataString) + content[closeAt + 2..])
  }

  /** `updatePopulateFile` on the script text `content`, where `json` is
      `JSON.stringify(dbData, null, 2)`: the new text, or None when the file
      is not written. The guard only looks at the marker, so the text is
      written whenever the marker is found; with no `];` after the marker,
      the text after the new block is the file minus its first character. */
  function UpdatePopulateFile(dbData: seq<App.Entry>, json: string, content: string): (r: Option<string>)
    ensures r.Some? <==> dbData != [] && IndexOf(content, Marker, 0) != -1
    ensures r.Some? ==>
              var i := IndexOf(content, Marker, 0);
              var j := IndexOf(content, Close, i);
              && (j != -1 ==> r.value == content[..i] + BlockAsWritten(Indent(json)) + content[j + 2..])
              && (j == -1 ==> r.value == content[..i] + BlockAsWritten(Indent(json)) + content[1..])
  {
    if |dbData| == 0 then None else SpliceAsWritten(content, Indent(json))
  }

  /** `updatePopulateFile` with the intended splice: nothing is written
      unless the marker and a `];` after it are both found. */
  function UpdatePopulateFileIntended(dbData: seq<App.Entry>, json: string, content: string): (r: Option<string>)
    ensures r.Some? <==>
              && dbData != []
              && IndexOf(content, Marker, 0) != -1
              && IndexOf(content, Close, IndexOf(content, Marker, 0)) != -1
    ensures r.Some? ==>
              var i := IndexOf(content, Marker, 0);
              var j := IndexOf(content, Close, i);
              r.value == content[..i] + Block(Indent(json)) + content[j + 2..]
  {
    if |dbData| == 0 then None else Splice(content, Indent(json))
  }

  /** The first occurrence of `pat` in `s` starts at `i`. */
  ghost predicate FirstMatchAt(s: string, pat: string, i: nat)
  {
    MatchAt(s, pat, i) && forall k :: 0 <= k < i ==> !MatchAt(s, pat, k)
  }

  /** The first `pat` at or after `from` starts at `i`. */
  ghost predicate FirstMatchFrom(s: string, pat: string, from: nat, i: nat)
  {
    from <= i && MatchAt(s, pat, i) && forall k :: from <= k < i ==> !MatchAt(s, pat, k)
  }

  /** An occurrence inside the middle part of a concatenation is an
      occurrence in that part. */
  lemma MatchInMiddle(p: string, x: string, q: string, pat: string, k: nat)
    requires k + |pat| <= |x|
    ensures MatchAt(p + x + q, pat, |p| + k) <==> MatchAt(x, pat, k)
  {
    assert (p + x + q)[|p| + k..|p| + k + |pat|] == x[k..k + |pat|];
  }

  /** Where `indexOf` looks when the text is rewritten: `x` replaces the
      text from the first marker at `i`; it starts with the marker itself
      and holds its first `];` at `c`. Then the first marker of the new text
      is still at `i` and the first `];` after it is at `i + c`. */
  lemma RewrittenPositions(content: string, i: nat, x: string, rest: string, c: nat)
    requires FirstMatchAt(content, Marker, i)
    requires |Marker| <= |x| && x[..|Marker|] == Marker
    requires c + |Close| <= |x| && MatchAt(x, Close, c)
    requires forall k :: 0 <= k < c ==> !MatchAt(x, Close, k)
    ensures IndexOf(content[..i] + x + rest, Marker, 0) == i
    ensures IndexOf(content[..i] + x + rest, Close, i) == i + c
  {
    var before := content[..i];
    var t := before + x + rest;
    MatchInMiddle(before, x, rest, Marker, 0);
    forall k | 0 <= k < i ensures !MatchAt(t, Marker, k) {
      if MatchAt(t, Marker, k) {
        forall p | k <= p < k + |Marker| ensures t[p] == content[p] {
          if p < i {
            assert t[p] == before[p];
          } else {
            assert t[p] == x[p - i] == Marker[p - i];
            assert content[i..i + |Marker|][p - i] == content[p];
          }
        }
        assert content[k..k + |Marker|] == t[k..k + |Marker|];
        assert MatchAt(content, Marker, k);
      }
    }
    MatchInMiddle(before, x, rest, Close, c);
    forall k | i <= k < i + c ensures !MatchAt(t, Close, k) {
      MatchInMiddle(before, x, rest, Close, k - i);
    }
  }

  /** The block holds no `];` before its closing one when the data holds
      none. */
  lemma BlockClose(newDataString: string)
    requires forall k :: !MatchAt(newDataString, Close, k)
    ensures |Block(newDataString)| >= |Marker| + |Close|
    ensures Block(newDataString)[..|Marker|] == Marker
    ensures MatchAt(Block(newDataString), Close, |Block(newDataString)| - 2)
    ensures forall k :: 0 <= k < |Block(newDataString)| - 2 ==> !MatchAt(Block(newDataString), Close, k)
  {
    var header := "let currentData = [\n";
    var b := Block(newDataString);
    var n := |newDataString|;
    assert b == header + newDataString + "\n];";
    forall k | 0 <= k < |b| - 2 ensures !MatchAt(b, Close, k) {
      if k < |header| {
        assert b[k] == header[k];
        assert header[k] != ']';
      } else if k < |header| + n - 1 {
        MatchInMiddle(header, newDataString, "\n];", Close, k - |header|);
      } else if k == |header| + n - 1 {
        assert b[k + 1] == '\n';
      } else {
        assert b[k] == '\n';
      }
    }
  }

  /** The splice as written, on a file whose marker has no `];` after it:
      the `dataEnd !== -1` guard passes all the same, since `dataEnd` is 1,
      and the text after the new block is the whole file but its first
      character. The intended splice writes nothing. */
  lemma MissingCloseAsWritten(content: string, newDataString: string)
    requires IndexOf(content, Marker, 0) != -1
    requires IndexOf(content, Close, IndexOf(content, Marker, 0)) == -1
    ensures SpliceAsWritten(content, newDataString) ==
              Some(content[..IndexOf(content, Marker, 0)] + BlockAsWritten(newDataString) + content[1..])
    ensures Splice(content, newDataString) == None
  {
  }

  /** A file that is only the marker line: the splice as written still
      writes, and keeps the marker line minus its first letter after the new
      block. */
  lemma MissingCloseCounterexample()
    ensures SpliceAsWritten(Marker, "[]") == Some(BlockAsWritten("[]") + "et currentData = [")
    ensures Splice(Marker, "[]") == None
  {
    MarkerLineSearch();
    MissingCloseAsWritten(Marker, "[]");
    assert Marker[..0] + BlockAsWritten("[]") + Marker[1..] == BlockAsWritten("[]") + "et currentData = [";
  }

  /** In the marker line alone the marker is found at 0 and no `];`. */
  lemma MarkerLineSearch()
    ensures IndexOf(Marker, Marker, 0) == 0
    ensures IndexOf(Marker, Close, 0) == -1
  {
    assert MatchAt(Marker, Marker, 0);
    assert ']' !in Marker;
    forall k | 0 <= k ensures !MatchAt(Marker, Close, k) {
      if k + 2 <= |Marker| {
        assert Marker[k..k + 2][0] == Marker[k] && Marker[k] in Marker;
      }
    }
  }

  /** The intended splice once the marker is found at `i` and the first
      `];` after it at `j`. */
  lemma SpliceAt(content: string, newDataString: string, i: nat, j: nat)
    requires IndexOf(content, Marker, 0) == i && IndexOf(content, Close, i) == j
    ensures Splice(content, newDataString) == Some(content[..i] + Block(newDataString) + content[j + 2..])
  {
    assert MatchAt(content, Close, j);
  }

  /** The splice as written in the same situation. */
  lemma SpliceAsWrittenAt(content: string, newDataString: string, i: nat, j: nat)
    requires IndexOf(content, Marker, 0) == i && IndexOf(content, Close, i) == j
    ensures SpliceAsWritten(content, newDataString)
              == Some(content[..i] + BlockAsWritten(newDataString) + content[j + 2..])
  {
    assert MatchAt(content, Close, j);
    assert SubstringFrom(content, j + 2) == content[j + 2..];
  }

  /** When the marker and a `];` after it are found, the text before the
      first marker and the text after the first `];` that follows it are
      kept verbatim, and only the span between them is replaced. */
  lemma SpliceKeepsSurroundings(content: string, newDataString: string)
    requires Splice(content, newDataString).Some?
    ensures exists i: nat, j: nat ::
              && FirstMatchAt(content, Marker, i) && FirstMatchFrom(content, Close, i, j)
              && Splice(content, newDataString).value == content[..i] + Block(newDataString) + content[j + 2..]
              && SpliceAsWritten(content, newDataString).value
                   == content[..i] + BlockAsWritten(newDataString) + content[j + 2..]
  {
    var i: nat := IndexOf(content, Marker, 0);
    var j: nat := IndexOf(content, Close, i);
    SpliceAt(content, newDataString, i, j);
    SpliceAsWrittenAt(content, newDataString, i, j);
    assert FirstMatchAt(content, Marker, i) && FirstMatchFrom(content, Close, i, j);
  }

  /** Once the marker is at `i`, a new block written there is found again:
      the marker stays at `i` and the first `];` after it is the one closing
      the block, whatever text follows the block. */
  lemma BlockFoundAgain(content: string, newDataString: string, i: nat, tail: string)
    requires IndexOf(content, Marker, 0) == i
    requires forall k :: !MatchAt(newDataString, Close, k)
    ensures var t := content[..i] + Block(newDataString) + tail;
      && IndexOf(t, Marker, 0) == i
      && IndexOf(t, Close, i) == i + |Block(newDataString)| - 2
  {
    BlockClose(newDataString);
    assert FirstMatchAt(content, Marker, i);
    var b := Block(newDataString);
    RewrittenPositions(content, i, b, tail, |b| - 2);
  }

  /** The intended splice of text it has already rewritten gives that
      text back. */
  lemma SpliceOfSpliced(content: string, newDataString: string, i: nat, j: nat)
    requires IndexOf(content, Marker, 0) == i && IndexOf(content, Close, i) == j
    requires forall k :: !MatchAt(newDataString, Close, k)
    ensures var t := content[..i] + Block(newDataString) + content[j + 2..];
      Splice(t, newDataString) == Some(t)
  {
    var b := Block(newDataString);
    var rest := content[j + 2..];
    var t := content[..i] + b + rest;
    BlockFoundAgain(content, newDataString, i, rest);
    SpliceAt(t, newDataString, i, i + |b| - 2);
    assert t[..i] == content[..i];
    assert t[i + |b|..] == rest;
  }

  /** Running the intended splice again with the same data changes
      nothing. */
  lemma SpliceIdempotent(content: string, newDataString: string)
    requires Splice(content, newDataString).Some?
    requires forall k :: !MatchAt(newDataString, Close, k)
    ensures Splice(Splice(content, newDataString).value, newDataString) == Splice(content, newDataString)
  {
    var i: nat := IndexOf(content, Marker, 0);
    var j: nat := IndexOf(content, Close, i);
    var t := content[..i] + Block(newDataString) + content[j + 2..];
    assert Splice(content, newDataString) == Some(t) by {
      SpliceAt(content, newDataString, i, j);
    }
    SpliceOfSpliced(content, newDataString, i, j);
  }

  /** The splice as written, run on text whose marker at `i` is followed by
      a block, replaces the block by one that carries a line break after
      its `];`, and keeps the text after the old block. */
  lemma RerunStep(content: string, newDataString: string, i: nat, tail: string)
    requires IndexOf(content, Marker, 0) == i
    requires forall k :: !MatchAt(newDataString, Close, k)
    ensures SpliceAsWritten(content[..i] + Block(newDataString) + tail, newDataString)
              == Some(content[..i] + BlockAsWritten(newDataString) + tail)
  {
    var b := Block(newDataString);
    var t := content[..i] + b + tail;
    BlockFoundAgain(content, newDataString, i, tail);
    SpliceAsWrittenAt(t, newDataString, i, i + |b| - 2);
    assert t[..i] == content[..i];
    assert t[i + |b|..] == tail;
  }

  /** `n` line breaks. */
  function Newlines(n: nat): (r: string)
    ensures |r| == n && forall k :: 0 <= k < n ==> r[k] == '\n'
  {
    seq(n, _ => '\n')
  }

  /** The file text after `n` runs of the splice as written with the same
      data, or None once a run writes nothing. */
  function Reruns(content: string, newDataString: string, n: nat): Option<string>
  {
    if n == 0 then Some(content)
    else
      match Reruns(content, newDataString, n - 1)
      case None => None
      case Some(t) => SpliceAsWritten(t, newDataString)
  }

  /** The block as written followed by `m` line breaks is the intended
      block followed by `m + 1` of them. */
  lemma BlockThenNewlines(pre: string, newDataString: string, m: nat, rest: string)
    ensures pre + BlockAsWritten(newDataString) + Newlines(m) + rest
              == pre + Block(newDataString) + ("\n" + Newlines(m) + rest)
    ensures pre + BlockAsWritten(newDataString) + ("\n" + Newlines(m) + rest)
              == pre + BlockAsWritten(newDataString) + Newlines(m + 1) + rest
  {
    assert BlockAsWritten(newDataString) == Block(newDataString) + "\n";
    assert Newlines(m + 1) == "\n" + Newlines(m);
  }

  /** No line breaks between two texts leave them joined directly. */
  lemma NoNewlines(pre: string, rest: string)
    ensures pre + Newlines(0) + rest == pre + rest
  {
    assert Newlines(0) == [];
  }

  /** The run after a run that wrote `t` is the splice of `t`. */
  lemma RerunsNext(content: string, newDataString: string, m: nat, t: string)
    requires Reruns(content, newDataString, m) == Some(t)
    ensures Reruns(content, newDataString, m + 1) == SpliceAsWritten(t, newDataString)
  {
  }

  /** One more run of the splice as written after a block and `m` line
      breaks leaves the block followed by `m + 1` line breaks. */
  lemma RerunsOneMore(content: string, newDataString: string, i: nat, j: nat, m: nat)
    requires IndexOf(content, Marker, 0) == i && IndexOf(content, Close, i) == j
    requires forall k :: !MatchAt(newDataString, Close, k)
    requires Reruns(content, newDataString, m + 1)
               == Some(content[..i] + BlockAsWritten(newDataString) + Newlines(m) + content[j + 2..])
    ensures Reruns(content, newDataString, m + 2)
              == Some(content[..i] + BlockAsWritten(newDataString) + Newlines(m + 1) + content[j + 2..])
  {
    var rest := content[j + 2..];
    var before := content[..i] + BlockAsWritten(newDataString) + Newlines(m) + rest;
    var after := content[..i] + BlockAsWritten(newDataString) + Newlines(m + 1) + rest;
    assert Reruns(content, newDataString, m + 2) == SpliceAsWritten(before, newDataString) by {
      RerunsNext(content, newDataString, m + 1, before);
    }
    assert SpliceAsWritten(before, newDataString) == Some(after) by {
      BlockThenNewlines(content[..i], newDataString, m, rest);
      RerunStep(content, newDataString, i, "\n" + Newlines(m) + rest);
    }
  }

  /** After `n + 1` runs of the splice as written, the file holds the new
      block followed by `n` extra line breaks, then the text that followed
      the original array. */
  lemma {:induction false} RerunsAddBlankLines(content: string, newDataString: string, i: nat, j: nat, n: nat)
    requires IndexOf(content, Marker, 0) == i && IndexOf(content, Close, i) == j
    requires forall k :: !MatchAt(newDataString, Close, k)
    ensures Reruns(content, newDataString, n + 1)
              == Some(content[..i] + BlockAsWritten(newDataString) + Newlines(n) + content[j + 2..])
  {
    if n == 0 {
      RerunsNext(content, newDataString, 0, content);
      SpliceAsWrittenAt(content, newDataString, i, j);
      NoNewlines(content[..i] + BlockAsWritten(newDataString), content[j + 2..]);
    } else {
      var m := n - 1;
      RerunsAddBlankLines(content, newDataString, i, j, m);
      RerunsOneMore(content, newDataString, i, j, m);
      assert m + 2 == n + 1;
    }
  }

  /** One more line break in the run after `pre` is a line break inserted
      right after `pre`. */
  lemma OneMoreNewline(pre: string, n: nat, rest: string)
    ensures var before := pre + Newlines(n) + rest;
      pre + Newlines(n + 1) + rest == before[..|pre|] + "\n" + before[|pre|..]
  {
    var before := pre + Newlines(n) + rest;
    assert before[..|pre|] == pre;
    assert before[|pre|..] == Newlines(n) + rest;
    assert Newlines(n + 1) == "\n" + Newlines(n);
  }

  /** Every rerun of the splice as written with the same data inserts one
      line break right after the array and changes nothing else. */
  lemma RerunAddsBlankLine(content: string, newDataString: string, n: nat)
    requires Splice(content, newDataString).Some?
    requires forall k :: !MatchAt(newDataString, Close, k)
    ensures Reruns(content, newDataString, n + 1).Some? && Reruns(content, newDataString, n + 2).Some?
    ensures var before := Reruns(content, newDataString, n + 1).value;
      var after := Reruns(content, newDataString, n + 2).value;
      var k := IndexOf(content, Marker, 0) + |BlockAsWritten(newDataString)|;
      && 0 <= k <= |before|
      && after == before[..k] + "\n" + before[k..]
  {
    var i: nat := IndexOf(content, Marker, 0);
    var j: nat := IndexOf(content, Close, i);
    var pre := content[..i] + BlockAsWritten(newDataString);
    var rest := content[j + 2..];
    var before := pre + Newlines(n) + rest;
    var after := pre + Newlines(n + 1) + rest;
    assert Reruns(content, newDataString, n + 1) == Some(before) by {
      RerunsAddBlankLines(content, newDataString, i, j, n);
    }
    assert Reruns(content, newDataString, n + 2) == Some(after) by {
      RerunsAddBlankLines(content, newDataString, i, j, n + 1);
    }
    OneMoreNewline(pre, n, rest);
  }

  /** The joined text starts with the first line. */
  lemma JoinStartsWithFirst(lines: seq<string>)
    requires |lines| >= 1
    ensures |lines[0]| <= |Join(lines)| && Join(lines)[..|lines[0]|] == lines[0]
  {
  }

  /** Indenting text that starts with `[` gives text that starts with two
      spaces and `[`. */
  lemma IndentKeepsOpeningBracket(json: string)
    requires |json| > 0 && json[0] == '['
    ensures |Indent(json)| >= 3 && Indent(json)[..3] == "  ["
  {
    var indented := Indent(json);
    assert Split(json)[0][0] == '[';
    JoinSplit(indented);
    JoinStartsWithFirst(Split(indented));
    assert Split(indented)[0] == "  " + Split(json)[0];
  }

  /** The first 23 characters of a block written after `pre` sit right
      after `pre`. */
  lemma BlockStartAt(pre: string, block: string, tail: string)
    requires |block| >= 23
    ensures (pre + block + tail)[|pre|..|pre| + 23] == block[..23]
  {
  }

  /** A block around indented data that starts with `[` opens with the
      declaration, a line break, two spaces and that `[`. */
  lemma BlockOpensNested(indented: string)
    requires |indented| >= 3 && indented[..3] == "  ["
    ensures |BlockAsWritten(indented)| >= 23 && BlockAsWritten(indented)[..23] == "let currentData = [\n  ["
  {
    assert BlockAsWritten(indented)[..23] == "let currentData = [\n" + indented[..3];
  }

  /** The text `updatePopulateFile` writes: the block around the indented
      data, between the text before the marker and the text the splice as
      written keeps after the array. */
  lemma WrittenAroundBlock(dbData: seq<App.Entry>, json: string, content: string)
    requires UpdatePopulateFile(dbData, json, content).Some?
    ensures var i := IndexOf(content, Marker, 0);
      var j := IndexOf(content, Close, i);
      && 0 <= i <= |content|
      && UpdatePopulateFile(dbData, json, content).value
           == content[..i] + BlockAsWritten(Indent(json)) + (if j != -1 then content[j + 2..] else content[1..])
  {
  }

  /** The data is itself a JSON array, so the rewritten `currentData` holds
      an array as its first element: the file reads `let currentData = [`,
      a line break, two spaces and another `[`. */
  lemma RewrittenDataIsNested(dbData: seq<App.Entry>, json: string, content: string)
    requires UpdatePopulateFile(dbData, json, content).Some?
    requires |json| > 0 && json[0] == '['
    ensures exists i :: MatchAt(UpdatePopulateFile(dbData, json, content).value, "let currentData = [\n  [", i)
  {
    var text := UpdatePopulateFile(dbData, json, content).value;
    var block := BlockAsWritten(Indent(json));
    assert |block| >= 23 && block[..23] == "let currentData = [\n  [" by {
      IndentKeepsOpeningBracket(json);
      BlockOpensNested(Indent(json));
    }
    var i := IndexOf(content, Marker, 0);
    var j := IndexOf(content, Close, i);
    var tail := if j != -1 then content[j + 2..] else content[1..];
    assert text == content[..i] + block + tail by {
      WrittenAroundBlock(dbData, json, content);
    }
    BlockStartAt(content[..i], block, tail);
    assert MatchAt(text, "let currentData = [\n  [", i);
  }

  /** `populateWithCurrentData`: empties the table, then `forEach` derives
      the closest-to-zero value of every entry in order and queues its
      insert; the queued inserts run in order once the loop is done. An
      empty series makes `findClosestToZero` throw out of the loop, and the
      run ends with the table emptied and nothing inserted. */
  method PopulateWithCurrentData(store: App.Store, currentData: seq<App.Entry>) returns (r: Outcome<SelectError>)
    requires store.Valid()
    modifies store
    ensures store.Valid()
    ensures r == Pass <==> forall k :: 0 <= k < |currentData| ==> currentData[k].temperatureSeries != []
    ensures r == Pass ==> App.Loaded(store.records, old(store.nextId), currentData)
    ensures r.Fail? ==>
              && store.records == map[] && store.nextId == old(store.nextId)
              && exists k :: 0 <= k < |currentData| && currentData[k].temperatureSeries == []
                   && forall j :: 0 <= j < k ==> currentData[j].temperatureSeries != []
  {
    store.Clear();
    var queued: seq<real> := [];
    var i := 0;
    while i < |currentData|
      invariant 0 <= i <= |currentData| && |queued| == i
      invariant store.Valid() && store.records == map[] && store.nextId == old(store.nextId)
      invariant forall j :: 0 <= j < i ==> currentData[j].temperatureSeries != []
      invariant forall j :: 0 <= j < i ==> queued[j] == Selector.ClosestToZero(currentData[j].temperatureSeries)
    {
      var closest := FindClosestToZero(currentData[i].temperatureSeries);
      if closest.Failure? {
        assert currentData[i].temperatureSeries == [];
        return Fail(closest.error);
      }
      Selector.ClosestToZeroUnique(currentData[i].temperatureSeries, closest.value,
        Selector.ClosestToZero(currentData[i].temperatureSeries));
      queued := queued + [closest.value];
      i := i + 1;
    }
    i := 0;
    while i < |currentData|
      invariant 0 <= i <= |currentData|
      invariant store.Valid()
      invariant store.nextId == old(store.nextId) + i
      invariant App.Loaded(store.records, old(store.nextId), currentData[..i])
    {
      var record := currentData[i];
      ghost var before := store.records;
      var inserted := store.Insert(record.personName, record.temperatureSeries, queued[i]);
      App.LoadedPush(before, old(store.nextId), currentData[..i], record, inserted);
      assert currentData[..i + 1] == currentData[..i] + [record];
      i := i + 1;
    }
    assert currentData[..i] == currentData;
    return Pass;
  }
}
