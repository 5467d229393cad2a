/** The audit log as text: `str.splitlines`, and what reading line by line gives. */
module AuditLines {
  import opened Texts
  import opened Json
  import opened JsonText
  import opened JsonCanonical
  import opened JsonParsed

  const NEWLINE: CodePoint := 10

  /** The line boundaries of `str.splitlines`. */
  predicate IsBreak(c: CodePoint) {
    10 <= c <= 13 || 28 <= c <= 30 || c == 0x85 || c == 0x2028 || c == 0x2029
  }

  predicate OneLine(t: Text) {
    forall i :: 0 <= i < |t| ==> !IsBreak(t[i])
  }

  /** The text ends with a line boundary, or is empty. */
  predicate Closed(t: Text) {
    t == [] || IsBreak(t[|t| - 1])
  }

  function LineLen(t: Text): (n: nat)
    ensures n <= |t| && OneLine(t[..n]) && (n < |t| ==> IsBreak(t[n]))
  {
    if t == [] || IsBreak(t[0]) then 0
    else
      var n := 1 + LineLen(t[1..]);
      assert t[..n] == [t[0]] + t[1..][..n - 1];
      n
  }

  /** A carriage return and the line feed after it are one boundary. */
  function BreakLen(t: Text): nat
    requires t != []
  {
    if |t| > 1 && t[0] == 13 && t[1] == 10 then 2 else 1
  }

  function Lines(t: Text): seq<Text>
    decreases |t|
  {
    if t == [] then []
    else
      var n := LineLen(t);
      if n == |t| then [t] else [t[..n]] + Lines(t[n + BreakLen(t[n..])..])
  }

  lemma {:induction false} LineLenIs(t: Text, n: nat)
    requires n <= |t| && OneLine(t[..n]) && (n < |t| ==> IsBreak(t[n]))
    ensures LineLen(t) == n
  {
    if n > 0 {
      assert t[..n][0] == t[0];
      assert t[1..][..n - 1] == t[..n][1..];
      LineLenIs(t[1..], n - 1);
    }
  }

  lemma ClosedTail(t: Text, n: nat)
    requires n <= |t| && Closed(t)
    ensures Closed(t[n..])
  {
  }

  lemma LinesStep(t: Text, n: nat)
    requires n < |t| && OneLine(t[..n]) && IsBreak(t[n])
    ensures Lines(t) == [t[..n]] + Lines(t[n + BreakLen(t[n..])..])
  {
    LineLenIs(t, n);
  }

  /** Where Python breaks a text into lines, by name: line feed, vertical tab, form feed, carriage
      return, the file, group and record separators, next line, and the two separators of
      Unicode. */
  const BOUNDARIES: set<int> := {0x0A, 0x0B, 0x0C, 0x0D, 0x1C, 0x1D, 0x1E, 0x85, 0x2028, 0x2029}

  predicate Unbroken(t: Text) {
    forall i :: 0 <= i < |t| ==> t[i] !in BOUNDARIES
  }

  lemma BoundariesNamed()
    ensures forall c: CodePoint :: c in BOUNDARIES <==> IsBreak(c)
  {
  }

  /** `str.splitlines`: a line ends at each boundary, a carriage return and a line feed are one,
      what follows the last one is a line if there is any, and there are no other lines. */
  lemma LinesExact(line: Text, c: CodePoint, rest: Text)
    requires Unbroken(line)
    ensures line != [] ==> Lines(line) == [line]
    ensures Lines(line + [13, 10] + rest) == [line] + Lines(rest)
    ensures c in BOUNDARIES && (c == 13 ==> rest == [] || rest[0] != 10) ==> Lines(line + [c] + rest) == [line] + Lines(rest)
  {
    hide IsBreak, BOUNDARIES, Lines, BreakLen;
    BoundariesNamed();
    if line != [] {
      OpenLine(line);
    }
    TwoAreOne(rest);
    LineThen(line, [13, 10], rest);
    if c in BOUNDARIES && (c == 13 ==> rest == [] || rest[0] != 10) {
      OneIsOne(c, rest);
      LineThen(line, [c], rest);
    }
  }

  lemma TwoAreOne(rest: Text)
    ensures IsBreak(13) && BreakLen([13, 10] + rest) == 2
  {
  }

  lemma OneIsOne(c: CodePoint, rest: Text)
    requires c == 13 ==> rest == [] || rest[0] != 10
    ensures BreakLen([c] + rest) == 1
  {
  }

  lemma LineThen(line: Text, end: Text, rest: Text)
    requires OneLine(line) && end != [] && IsBreak(end[0]) && BreakLen(end + rest) == |end|
    ensures Lines(line + end + rest) == [line] + Lines(rest)
  {
    hide IsBreak, BreakLen, Lines;
    var t := line + end + rest;
    assert t[..|line|] == line && t[|line|..] == end + rest && t[|line|] == end[0];
    LinesStep(t, |line|);
    assert t[|line| + |end|..] == rest;
  }

  lemma ClosedBreaks(t: Text)
    requires Closed(t) && t != []
    ensures LineLen(t) < |t|
  {
    assert t[..|t|][|t| - 1] == t[|t| - 1];
  }

  lemma BreakStays(t: Text, n: nat, more: Text)
    requires n < |t| && more != [] && !IsBreak(more[0])
    ensures n + BreakLen(t[n..]) <= |t|
    ensures BreakLen((t + more)[n..]) == BreakLen(t[n..])
    ensures (t + more)[n + BreakLen(t[n..])..] == t[n + BreakLen(t[n..])..] + more
  {
    assert (t + more)[n..] == t[n..] + more;
  }

  lemma LinesOfNothing()
    ensures Lines([]) == []
  {
  }

  lemma LinesStepWith(t: Text, n: nat, more: Text)
    requires n < |t| && OneLine(t[..n]) && IsBreak(t[n]) && more != [] && !IsBreak(more[0])
    ensures n + BreakLen(t[n..]) <= |t|
    ensures Lines(t + more) == [t[..n]] + Lines(t[n + BreakLen(t[n..])..] + more)
  {
    hide Lines, BreakLen;
    assert t[..n] == (t + more)[..n];
    BreakStays(t, n, more);
    LinesStep(t + more, n);
  }

  /** What follows a closed text starts a line of its own. */
  lemma {:induction false} LinesAppend(t: Text, more: Text)
    requires Closed(t) && more != [] && !IsBreak(more[0])
    ensures Lines(t + more) == Lines(t) + Lines(more)
    decreases |t|
  {
    hide Lines, LineLen, BreakLen;
    if t == [] {
      assert t + more == more;
      LinesOfNothing();
    } else {
      ClosedBreaks(t);
      var n := LineLen(t);
      LinesStep(t, n);
      LinesStepWith(t, n, more);
      var tail := t[n + BreakLen(t[n..])..];
      ClosedTail(t, n + BreakLen(t[n..]));
      LinesAppend(tail, more);
      assert [t[..n]] + (Lines(tail) + Lines(more)) == ([t[..n]] + Lines(tail)) + Lines(more);
    }
  }

  lemma OpenLine(line: Text)
    requires OneLine(line) && line != []
    ensures Lines(line) == [line]
  {
    assert line[..|line|] == line;
    LineLenIs(line, |line|);
  }

  lemma LineAlone(line: Text)
    requires OneLine(line) && line != []
    ensures Lines(line + [NEWLINE]) == [line]
  {
    var t := line + [NEWLINE];
    assert t[..|line|] == line;
    LineLenIs(t, |line|);
    assert t[|line|..] == [NEWLINE];
    assert t[|line| + 1..] == [];
    assert Lines([]) == [];
  }

  // ------------------------------------------------------------ reading

  /** A blank line is skipped; anything else must be JSON. `None` is the raised error. */
  function LineEntries(line: Text): Option<seq<Value>> {
    var s := Strip(line);
    if s == [] then Some([])
    else
      match Loads(s)
      case Some(v) => Some([v])
      case None => None
  }

  function ReadLines(lines: seq<Text>): Option<seq<Value>> {
    if lines == [] then Some([])
    else
      match LineEntries(lines[0])
      case None => None
      case Some(first) =>
        match ReadLines(lines[1..])
        case None => None
        case Some(more) => Some(first + more)
  }

  /** `_read` */
  function ReadText(text: Text): Option<seq<Value>> {
    ReadLines(Lines(text))
  }

  lemma {:induction false} ReadLinesAppend(a: seq<Text>, b: seq<Text>)
    ensures ReadLines(a + b) ==
      if ReadLines(a).Some? && ReadLines(b).Some? then Some(ReadLines(a).value + ReadLines(b).value) else None
  {
    if a == [] {
      assert a + b == b;
      assert ReadLines(b).Some? ==> [] + ReadLines(b).value == ReadLines(b).value;
    } else {
      assert (a + b)[1..] == a[1..] + b;
      ReadLinesAppend(a[1..], b);
      if ReadLines(a).Some? && ReadLines(b).Some? {
        var first := LineEntries(a[0]).value;
        assert first + (ReadLines(a[1..]).value + ReadLines(b).value) == (first + ReadLines(a[1..]).value) + ReadLines(b).value;
      }
    }
  }

  lemma {:induction false} ReadLinesOne(line: Text)
    ensures ReadLines([line]) == LineEntries(line)
  {
    assert ReadLines([line][1..]) == Some([]);
    if LineEntries(line).Some? {
      assert LineEntries(line).value + [] == LineEntries(line).value;
    }
  }

  /** Reading one line further. */
  lemma ReadLinesStep(lines: seq<Text>, i: nat)
    requires i < |lines| && ReadLines(lines[..i]).Some?
    ensures LineEntries(lines[i]).Some? ==>
      ReadLines(lines[..i + 1]) == Some(ReadLines(lines[..i]).value + LineEntries(lines[i]).value)
    ensures LineEntries(lines[i]).None? ==> ReadLines(lines).None?
    ensures LineEntries(lines[i]) == Some([]) ==> ReadLines(lines[..i + 1]) == ReadLines(lines[..i])
  {
    hide ReadLines, LineEntries;
    ReadLinesAppend(lines[..i], [lines[i]]);
    ReadLinesOne(lines[i]);
    ReadLinesAppend(lines[..i + 1], lines[i + 1..]);
    assert lines[..i + 1] == lines[..i] + [lines[i]];
    assert lines == lines[..i + 1] + lines[i + 1..];
    assert ReadLines(lines[..i]).value + [] == ReadLines(lines[..i]).value;
  }

  /** Appending one printed line to a closed log adds one line and one entry, and touches
      nothing before it. */
  lemma AppendOne(text: Text, line: Text)
    requires Closed(text) && ReadText(text).Some?
    requires Printable(line) && line != [] && line[0] != 32 && line[|line| - 1] != 32 && Loads(line).Some?
    ensures var after := text + line + [NEWLINE];
      && Closed(after)
      && Lines(after) == Lines(text) + [line]
      && ReadText(after) == Some(ReadText(text).value + [Loads(line).value])
  {
    hide Lines, ReadLines, Loads;
    assert text + line + [NEWLINE] == text + (line + [NEWLINE]);
    LinesAppend(text, line + [NEWLINE]);
    LineAlone(line);
    ReadLinesAppend(Lines(text), [line]);
    ReadLinesOne(line);
    StripTight(line);
  }

  // ------------------------------------------------------------ what is read is clean

  ghost predicate CleanEntries(vs: seq<Value>) {
    forall i :: 0 <= i < |vs| ==> WellFormed(vs[i]) && AllPairFree(vs[i])
  }

  lemma PartNoSurrogates(t: Text, i: nat, j: nat)
    requires i <= j <= |t| && NoSurrogates(t)
    ensures NoSurrogates(t[i..j])
  {
  }

  lemma LineClean(line: Text)
    requires NoSurrogates(line) && LineEntries(line).Some?
    ensures CleanEntries(LineEntries(line).value)
  {
    hide Loads, WellFormed, AllPairFree, NoSurrogates, Strip;
    var i, j := StripShape(line);
    PartNoSurrogates(line, i, j);
    if Strip(line) != [] {
      LoadsGood(Strip(line));
    }
  }

  lemma {:induction false} ReadLinesClean(lines: seq<Text>)
    requires ReadLines(lines).Some?
    requires forall i :: 0 <= i < |lines| ==> NoSurrogates(lines[i])
    ensures CleanEntries(ReadLines(lines).value)
  {
    hide LineEntries, WellFormed, AllPairFree, NoSurrogates;
    if lines != [] {
      LineClean(lines[0]);
      ReadLinesClean(lines[1..]);
    }
  }

  lemma {:induction false} LinesClean(t: Text)
    requires NoSurrogates(t)
    ensures forall i :: 0 <= i < |Lines(t)| ==> NoSurrogates(Lines(t)[i])
    decreases |t|
  {
    hide NoSurrogates;
    if t != [] {
      var n := LineLen(t);
      if n < |t| {
        var m := n + BreakLen(t[n..]);
        PartNoSurrogates(t, 0, n);
        PartNoSurrogates(t, m, |t|);
        assert t[0..n] == t[..n] && t[m..|t|] == t[m..];
        LinesClean(t[m..]);
      }
    }
  }

  /** Every entry of a log that was decoded from UTF-8 is well formed and pair-free. */
  lemma ReadTextClean(text: Text)
    requires NoSurrogates(text) && ReadText(text).Some?
    ensures CleanEntries(ReadText(text).value)
  {
    LinesClean(text);
    ReadLinesClean(Lines(text));
  }
}
