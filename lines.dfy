/**
 * Line-oriented loading of a text file: one call of BufferedReader.readLine
 * (NextLine), the whole sequence of lines it yields (ReadLines), and the
 * buffer Open builds by appending the host line separator after each line.
 */
module Lines {
  import opened Wrappers

  /** readLine ends a line at a line feed, at a carriage return, or at the pair CR LF. */
  predicate IsBreak(c: char)
  {
    c == '\n' || c == '\r'
  }

  /** The three line endings readLine recognises; the host separator is one of them. */
  predicate IsLineEnding(e: string)
  {
    e == "\n" || e == "\r" || e == "\r\n"
  }

  predicate NoBreaks(s: string)
  {
    forall i :: 0 <= i < |s| ==> !IsBreak(s[i])
  }

  /** The length of the first line of s: the run of characters before the first break. */
  function LineLength(s: string): (n: nat)
    ensures n <= |s|
    ensures forall i :: 0 <= i < n ==> !IsBreak(s[i])
    ensures n < |s| ==> IsBreak(s[n])
  {
    if s == [] || IsBreak(s[0]) then 0 else 1 + LineLength(s[1..])
  }

  /** One line as readLine splits it off the unread input. */
  datatype Split = Split(line: string, ending: string, rest: string)

  /**
   * One call of readLine on the unread input s: None at end of input, otherwise
   * the line without its ending, the ending consumed, and the input left over.
   */
  function NextLine(s: string): (r: Option<Split>)
    ensures r.None? <==> s == []
    ensures r.Some? ==> s == r.value.line + r.value.ending + r.value.rest
    ensures r.Some? ==> |r.value.rest| < |s|
    ensures r.Some? ==> NoBreaks(r.value.line)
    ensures r.Some? ==> IsLineEnding(r.value.ending) || (r.value.ending == [] && r.value.rest == [])
    ensures r.Some? && r.value.ending == "\r" ==> r.value.rest == [] || r.value.rest[0] != '\n'
  {
    if s == [] then None
    else
      var n := LineLength(s);
      var e := if n == |s| then 0 else if s[n] == '\r' && n + 1 < |s| && s[n + 1] == '\n' then 2 else 1;
      assert s == s[..n] + s[n..n + e] + s[n + e..];
      Some(Split(s[..n], s[n..n + e], s[n + e..]))
  }

  /** Every line readLine returns until it returns null; no line holds a break. */
  function ReadLines(s: string): (lines: seq<string>)
    ensures forall i :: 0 <= i < |lines| ==> NoBreaks(lines[i])
    decreases |s|
  {
    match NextLine(s)
    case None => []
    case Some(sp) => [sp.line] + ReadLines(sp.rest)
  }

  /** Each line followed by the separator, as the StringBuilder in Open accumulates them. */
  function JoinLines(lines: seq<string>, sep: string): (text: string)
    ensures sep != [] ==> (text == [] <==> lines == [])
  {
    if lines == [] then [] else lines[0] + sep + JoinLines(lines[1..], sep)
  }

  /** The buffer Open produces from the content of a file. */
  function LoadText(content: string, sep: string): (text: string)
    ensures sep != [] ==> (text == [] <==> content == [])
  {
    JoinLines(ReadLines(content), sep)
  }

  /** A line without breaks, followed by a break or by nothing, is one line long. */
  lemma {:induction false} LineLengthOf(line: string, tail: string)
    requires NoBreaks(line)
    requires tail == [] || IsBreak(tail[0])
    ensures LineLength(line + tail) == |line|
    decreases |line|
  {
    if line != [] {
      assert (line + tail)[1..] == line[1..] + tail;
      assert !IsBreak(line[0]);
      LineLengthOf(line[1..], tail);
    } else {
      assert line + tail == tail;
    }
  }

  /** A joined text starts with the first character of its first line, or with the separator. */
  lemma JoinedHead(lines: seq<string>, sep: string)
    requires |sep| > 0
    requires forall i :: 0 <= i < |lines| ==> NoBreaks(lines[i])
    ensures JoinLines(lines, sep) != [] ==> JoinLines(lines, sep)[0] == sep[0] || !IsBreak(JoinLines(lines, sep)[0])
  {

  }

  /**
   * readLine splits a line, a recognised ending and the rest apart again,
   * unless a lone carriage return is followed by a line feed.
   */
  lemma NextLineOf(line: string, ending: string, rest: string)
    requires NoBreaks(line) && IsLineEnding(ending)
    requires ending == "\r" ==> rest == [] || rest[0] != '\n'
    ensures NextLine(line + ending + rest) == Some(Split(line, ending, rest))
  {
    var s := line + ending + rest;
    assert s == line + (ending + rest);
    LineLengthOf(line, ending + rest);
    var n := |line|;
    assert s[..n] == line;
    assert s[n] == ending[0];
    if ending == "\r\n" {
      assert s[n + 1] == '\n';
      assert s[n..n + 2] == ending && s[n + 2..] == rest;
    } else {
      assert ending == "\r" && n + 1 < |s| ==> s[n + 1] == rest[0];
      assert s[n..n + 1] == ending && s[n + 1..] == rest;
    }
  }

  /** A last line without an ending is returned whole. */
  lemma LastLine(line: string)
    requires line != [] && NoBreaks(line)
    ensures NextLine(line) == Some(Split(line, "", ""))
  {

  }

  /** Reading the lines of non-empty input: the first line, then the lines of what follows it. */
  lemma ReadLinesStep(s: string)
    requires s != []
    ensures ReadLines(s) == [NextLine(s).value.line] + ReadLines(NextLine(s).value.rest)
  {
  }

  /**
   * Reading back text written as lines joined by a recognised separator yields
   * exactly those lines: the separator never merges with the next line's text.
   */
  lemma {:induction false} ReadJoined(lines: seq<string>, sep: string)
    requires IsLineEnding(sep)
    requires forall i :: 0 <= i < |lines| ==> NoBreaks(lines[i])
    ensures ReadLines(JoinLines(lines, sep)) == lines
    decreases |lines|
  {
    if lines != [] {
      var rest := lines[1..];
      assert forall i :: 0 <= i < |rest| ==> NoBreaks(rest[i]) by {
        forall i | 0 <= i < |rest| ensures NoBreaks(rest[i]) { assert rest[i] == lines[i + 1]; }
      }
      var tail := JoinLines(rest, sep);
      var s := JoinLines(lines, sep);
      assert s == lines[0] + sep + tail;
      assert NextLine(s) == Some(Split(lines[0], sep, tail)) by {
        JoinedHead(rest, sep);
        assert NoBreaks(lines[0]);
        NextLineOf(lines[0], sep, tail);
      }
      assert ReadLines(s) == [lines[0]] + ReadLines(tail) by { ReadLinesStep(s); }
      assert ReadLines(tail) == rest by { ReadJoined(rest, sep); }
      assert lines == [lines[0]] + rest;
    }
  }

  /** Loaded text is read back line for line: Open after Open changes nothing. */
  lemma LoadIdempotent(content: string, sep: string)
    requires IsLineEnding(sep)
    ensures ReadLines(LoadText(content, sep)) == ReadLines(content)
    ensures LoadText(LoadText(content, sep), sep) == LoadText(content, sep)
  {
    ReadJoined(ReadLines(content), sep);
  }

  /**
   * With line feeds only and the host separator "\n", loading gives back the
   * file unchanged, except that a last line without a break gains one.
   */
  lemma {:induction false} LoadUnixText(content: string)
    requires '\r' !in content
    ensures LoadText(content, "\n") ==
      if content == [] || content[|content| - 1] == '\n' then content else content + "\n"
    decreases |content|
  {
    if content != [] {
      var sp := NextLine(content).value;
      assert content == sp.line + sp.ending + sp.rest;
      assert '\r' !in sp.ending && '\r' !in sp.rest;
      assert sp.ending == "\n" || sp.ending == [];
      LoadUnixText(sp.rest);
      assert LoadText(content, "\n") == sp.line + "\n" + LoadText(sp.rest, "\n");
      if sp.ending == [] {
        assert content == sp.line;
        assert !IsBreak(content[|content| - 1]);
      } else if sp.rest != [] {
        assert content[|content| - 1] == sp.rest[|sp.rest| - 1];
      }
    }
  }

  /** A file with mixed line endings loads with the host separator after every line. */
  lemma MixedEndingsExample(sep: string)
    ensures LoadText("a\nb\r\nc", sep) == "a" + sep + "b" + sep + "c" + sep
  {
    LastLine("c");
    assert ReadLines("c") == ["c"] + ReadLines("");
    NextLineOf("b", "\r\n", "c");
    assert "b\r\nc" == "b" + "\r\n" + "c";
    assert ReadLines("b\r\nc") == ["b", "c"];
    NextLineOf("a", "\n", "b\r\nc");
    assert "a\nb\r\nc" == "a" + "\n" + "b\r\nc";
    assert ReadLines("a\nb\r\nc") == ["a", "b", "c"];
    assert JoinLines(["c"], sep) == "c" + sep;
    assert JoinLines(["b", "c"], sep) == "b" + sep + JoinLines(["c"], sep);
  }

  /**
   * The reading loop of Open: call readLine until it returns null, appending
   * each line and then the separator to the text built so far.
   */
  method ReadAll(content: string, sep: string) returns (text: string)
    ensures text == LoadText(content, sep)
  {
    text := [];
    var unread := content;
    var next := NextLine(unread);
    while next.Some?
      invariant next == NextLine(unread)
      invariant text + JoinLines(ReadLines(unread), sep) == LoadText(content, sep)
      decreases |unread|
    {
      var line := next.value.line;
      ReadLinesStep(unread);
      assert JoinLines(ReadLines(unread), sep) == line + sep + JoinLines(ReadLines(next.value.rest), sep);
      text := text + line + sep;
      unread := next.value.rest;
      next := NextLine(unread);
    }
    assert unread == [];
  }
}
