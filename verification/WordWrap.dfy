/** Greedy word wrap (`_wrap` in apps/flasher/src/sambuca_flasher/bootguide.py), and that no
    layout of the same words in the same width is shorter. */
module WordWrap {
  import opened Texts

  const SPACE: CodePoint := 32

  predicate IsWord(w: Text) {
    w != [] && forall i :: 0 <= i < |w| ==> !IsSpace(w[i])
  }

  predicate AreWords(ws: seq<Text>) {
    forall i :: 0 <= i < |ws| ==> IsWord(ws[i])
  }

  function WordLen(t: Text): (n: nat)
    ensures n <= |t| && (forall i :: 0 <= i < n ==> !IsSpace(t[i])) && (n < |t| ==> IsSpace(t[n]))
  {
    if t == [] || IsSpace(t[0]) then 0 else 1 + WordLen(t[1..])
  }

  /** `text.split()` */
  function Words(t: Text): (ws: seq<Text>)
    ensures AreWords(ws)
    decreases |t|
  {
    if t == [] then []
    else if IsSpace(t[0]) then Words(t[1..])
    else [t[..WordLen(t)]] + Words(t[WordLen(t)..])
  }

  // ------------------------------------------------------------ the greedy result

  function Join(cur: Text, w: Text): Text {
    if cur == [] then w else cur + [SPACE] + w
  }

  predicate Overflows(cur: Text, w: Text, width: int) {
    |cur| + |w| + 1 > width
  }

  /** The lines still to come when `cur` is the line being filled. */
  function WrapFrom(cur: Text, ws: seq<Text>, width: int): seq<Text>
    decreases ws
  {
    if ws == [] then (if cur == [] then [] else [cur])
    else if Overflows(cur, ws[0], width) then [cur] + WrapFrom(ws[0], ws[1..], width)
    else WrapFrom(Join(cur, ws[0]), ws[1..], width)
  }

  /** Nothing to strip: it is empty, or starts and ends inside words. */
  predicate Tight(t: Text) {
    t != [] ==> !IsSpace(t[0]) && !IsSpace(t[|t| - 1])
  }

  lemma StripJoins(cur: Text, w: Text)
    requires Tight(cur) && IsWord(w)
    ensures Strip(cur + [SPACE] + w) == Join(cur, w) && Tight(Join(cur, w))
  {
    if cur == [] {
      assert (cur + [SPACE] + w)[1..] == w;
      StripTight(w);
    } else {
      StripTight(cur + [SPACE] + w);
    }
  }

  /** `_wrap` */
  method Wrap(text: Text, width: int) returns (lines: seq<Text>)
    ensures lines == WrapFrom([], Words(text), width)
  {
    var words := Words(text);
    lines := [];
    var cur: Text := [];
    assert words[0..] == words;
    for i := 0 to |words|
      invariant Tight(cur)
      invariant lines + WrapFrom(cur, words[i..], width) == WrapFrom([], words, width)
    {
      hide Words, Strip;
      var w := words[i];
      assert words[i..][1..] == words[i + 1..];
      if |cur| + |w| + 1 > width {
        assert lines + ([cur] + WrapFrom(w, words[i + 1..], width)) == (lines + [cur]) + WrapFrom(w, words[i + 1..], width);
        lines := lines + [cur];
        cur := w;
      } else {
        StripJoins(cur, w);
        cur := Strip(cur + [SPACE] + w);
      }
    }
    if cur != [] {
      lines := lines + [cur];
    }
  }

  // ------------------------------------------------------------ layouts

  /** A line of text from a group of words. */
  function Line(g: seq<Text>): Text {
    if g == [] then [] else if |g| == 1 then g[0] else g[0] + [SPACE] + Line(g[1..])
  }

  function Flat(groups: seq<seq<Text>>): seq<Text> {
    if groups == [] then [] else groups[0] + Flat(groups[1..])
  }

  /** The words cut into lines, none of them empty and none wider than allowed. */
  predicate IsLayout(groups: seq<seq<Text>>, ws: seq<Text>, width: int) {
    Flat(groups) == ws && forall i :: 0 <= i < |groups| ==> groups[i] != [] && |Line(groups[i])| <= width
  }

  /** How the greedy loop groups the words; an empty group stands for an empty line. */
  function GroupFrom(g: seq<Text>, ws: seq<Text>, width: int): seq<seq<Text>>
    decreases ws
  {
    if ws == [] then (if g == [] then [] else [g])
    else if Overflows(Line(g), ws[0], width) then [g] + GroupFrom([ws[0]], ws[1..], width)
    else GroupFrom(g + [ws[0]], ws[1..], width)
  }

  lemma {:induction false} LineSnoc(g: seq<Text>, w: Text)
    requires AreWords(g)
    ensures Line(g + [w]) == Join(Line(g), w)
    ensures g != [] ==> Line(g) != []
  {
    if g != [] {
      LineSnoc(g[1..], w);
      assert (g + [w])[1..] == g[1..] + [w];
    }
  }

  function LinesOf(groups: seq<seq<Text>>): (ls: seq<Text>)
    ensures |ls| == |groups| && forall i :: 0 <= i < |ls| ==> ls[i] == Line(groups[i])
  {
    seq(|groups|, i requires 0 <= i < |groups| => Line(groups[i]))
  }

  /** The lines are the groups' lines, and the groups are the words, all of them, in order. */
  lemma {:induction false} WrapGroups(g: seq<Text>, ws: seq<Text>, width: int)
    requires AreWords(g) && AreWords(ws)
    ensures WrapFrom(Line(g), ws, width) == LinesOf(GroupFrom(g, ws, width))
    ensures Flat(GroupFrom(g, ws, width)) == g + ws
    decreases ws
  {
    hide Line, IsWord;
    if ws == [] {
      LineSnoc(g, [SPACE]);
      LineOne([]);
      OneGroup(g);
      assert LinesOf([g]) == [Line(g)];
      assert g + ws == g;
    } else if Overflows(Line(g), ws[0], width) {
      LineSnoc([], ws[0]);
      LineSnoc(g, ws[0]);
      LineOne(ws[0]);
      WrapGroups([ws[0]], ws[1..], width);
      assert g + ([ws[0]] + ws[1..]) == g + ws;
    } else {
      LineSnoc(g, ws[0]);
      WrapGroups(g + [ws[0]], ws[1..], width);
      assert (g + [ws[0]]) + ws[1..] == g + ws;
    }
  }

  lemma LineOne(w: Text)
    ensures Line([w]) == w && Line([]) == []
  {
  }

  lemma OneGroup(g: seq<Text>)
    ensures Flat([g]) == g && Flat([]) == []
  {
    assert Flat([g][1..]) == [];
  }

  /** Wrapping keeps every word, in order. */
  lemma WrapKeepsWords(text: Text, width: int)
    ensures exists groups :: Flat(groups) == Words(text) && WrapFrom([], Words(text), width) == LinesOf(groups)
  {
    WrapGroups([], Words(text), width);
    LineOne([]);
    assert [] + Words(text) == Words(text);
  }

  // ------------------------------------------------------------ how many lines

  /** The number of lines from one of length `c` on. */
  function Count(c: nat, ws: seq<Text>, width: int): nat
    decreases ws
  {
    if ws == [] then 1
    else if c + |ws[0]| + 1 > width then 1 + Count(|ws[0]|, ws[1..], width)
    else Count(c + 1 + |ws[0]|, ws[1..], width)
  }

  lemma {:induction false} WrapCounts(cur: Text, ws: seq<Text>, width: int)
    requires cur != [] && AreWords(ws)
    ensures |WrapFrom(cur, ws, width)| == Count(|cur|, ws, width)
    decreases ws
  {
    if ws != [] {
      assert IsWord(ws[0]);
      WrapCounts(if Overflows(cur, ws[0], width) then ws[0] else Join(cur, ws[0]), ws[1..], width);
    }
  }

  /** A longer line so far never leads to fewer lines, and costs at most one more. */
  lemma {:induction false} CountMonotone(a: nat, b: nat, ws: seq<Text>, width: int)
    ensures a <= b ==> Count(a, ws, width) <= Count(b, ws, width)
    ensures Count(a, ws, width) <= 1 + Count(b, ws, width)
    decreases ws
  {
    if ws != [] {
      var n := |ws[0]|;
      CountMonotone(a + 1 + n, b + 1 + n, ws[1..], width);
      CountMonotone(a + 1 + n, n, ws[1..], width);
      CountMonotone(n, b + 1 + n, ws[1..], width);
    }
  }

  /** What a group adds to a line that is already started. */
  function Extra(g: seq<Text>): nat {
    if g == [] then 0 else 1 + |g[0]| + Extra(g[1..])
  }

  lemma {:induction false} LineLength(g: seq<Text>)
    requires g != []
    ensures |Line(g)| == |g[0]| + Extra(g[1..])
  {
    if |g| > 1 {
      LineLength(g[1..]);
      assert g[1..][0] == g[1];
    }
  }

  /** A layout seen from inside: its first group goes on with a line of length `c`. */
  predicate Continues(c: nat, groups: seq<seq<Text>>, ws: seq<Text>, width: int) {
    && groups != [] && Flat(groups) == ws
    && c + Extra(groups[0]) <= width
    && forall i :: 1 <= i < |groups| ==> groups[i] != [] && |Line(groups[i])| <= width
  }

  lemma NextWord(c: nat, groups: seq<seq<Text>>, ws: seq<Text>, width: int) returns (rest: seq<seq<Text>>)
    requires Continues(c, groups, ws, width) && ws != []
    ensures if groups[0] != [] then
        |rest| == |groups| && c + 1 + |ws[0]| <= width && Continues(c + 1 + |ws[0]|, rest, ws[1..], width)
      else |rest| == |groups| - 1 && Continues(|ws[0]|, rest, ws[1..], width)
  {
    if groups[0] != [] {
      rest := [groups[0][1..]] + groups[1..];
      assert rest[1..] == groups[1..];
      assert ws[1..] == groups[0][1..] + Flat(groups[1..]);
    } else {
      var tail := groups[1..];
      assert groups[0] + Flat(tail) == Flat(tail);
      assert tail != [] && tail[0] == groups[1];
      LineLength(groups[1]);
      rest := [groups[1][1..]] + groups[2..];
      assert rest[1..] == groups[2..] == tail[1..];
      assert ws == groups[1] + Flat(groups[2..]);
      assert ws[1..] == groups[1][1..] + Flat(groups[2..]);
    }
  }

  /** Greedy stays ahead of any layout. */
  lemma {:induction false} StaysAhead(a: nat, c: nat, groups: seq<seq<Text>>, ws: seq<Text>, width: int)
    requires Continues(c, groups, ws, width) && a <= c
    ensures Count(a, ws, width) <= |groups|
    decreases ws
  {
    hide Continues;
    if ws != [] {
      var rest := NextWord(c, groups, ws, width);
      var n := |ws[0]|;
      if groups[0] != [] {
        StaysAhead(a + 1 + n, c + 1 + n, rest, ws[1..], width);
      } else {
        StaysAhead(n, n, rest, ws[1..], width);
        CountMonotone(a + 1 + n, n, ws[1..], width);
      }
    } else {
      ContinuesSome(c, groups, ws, width);
    }
  }

  lemma ContinuesSome(c: nat, groups: seq<seq<Text>>, ws: seq<Text>, width: int)
    requires Continues(c, groups, ws, width)
    ensures groups != []
  {
  }

  lemma LayoutContinues(groups: seq<seq<Text>>, ws: seq<Text>, width: int)
    requires IsLayout(groups, ws, width) && ws != []
    ensures groups != [] && groups[0] != [] && Continues(|ws[0]|, [groups[0][1..]] + groups[1..], ws[1..], width)
  {
    assert groups != [];
    LineLength(groups[0]);
    var rest := [groups[0][1..]] + groups[1..];
    assert rest[1..] == groups[1..];
    assert ws == groups[0] + Flat(groups[1..]);
    assert ws[1..] == groups[0][1..] + Flat(groups[1..]);
  }

  // ------------------------------------------------------------ the theorem

  predicate EachFits(ws: seq<Text>, width: int) {
    forall i :: 0 <= i < |ws| ==> |ws[i]| <= width
  }

  /** The first word leaves room beside it, so the loop does not start by emitting an empty
      line. */
  predicate StartsWell(ws: seq<Text>, width: int) {
    ws != [] ==> |ws[0]| < width
  }

  lemma {:induction false} GroupsFit(g: seq<Text>, ws: seq<Text>, width: int)
    requires AreWords(g) && AreWords(ws) && EachFits(ws, width) && |Line(g)| <= width && g != []
    ensures IsLayout(GroupFrom(g, ws, width), g + ws, width)
    decreases ws
  {
    hide Line, IsWord, Flat;
    WrapGroups(g, ws, width);
    if ws != [] {
      LineOne(ws[0]);
      LineSnoc(g, ws[0]);
      if Overflows(Line(g), ws[0], width) {
        GroupsFit([ws[0]], ws[1..], width);
      } else {
        GroupsFit(g + [ws[0]], ws[1..], width);
      }
    }
  }

  lemma FirstStep(ws: seq<Text>, width: int)
    requires AreWords(ws) && ws != []
    ensures WrapFrom([], ws, width) ==
      (if StartsWell(ws, width) then [] else [[]]) + WrapFrom(ws[0], ws[1..], width)
    ensures GroupFrom([], ws, width) ==
      (if StartsWell(ws, width) then [] else [[]]) + GroupFrom([ws[0]], ws[1..], width)
  {
    LineOne([]);
    assert [] + [ws[0]] == [ws[0]];
  }

  /** From the first word on, greedy wrapping is a layout, and no layout is shorter. */
  lemma RestIsBest(ws: seq<Text>, width: int)
    requires AreWords(ws) && EachFits(ws, width) && ws != []
    ensures IsLayout(GroupFrom([ws[0]], ws[1..], width), ws, width)
    ensures |GroupFrom([ws[0]], ws[1..], width)| == |WrapFrom(ws[0], ws[1..], width)|
    ensures forall groups :: IsLayout(groups, ws, width) ==> |WrapFrom(ws[0], ws[1..], width)| <= |groups|
  {
    hide Line, IsWord, Count, WrapFrom, GroupFrom, Flat, IsLayout, Continues;
    var first, rest := ws[0], ws[1..];
    LineOne(first);
    GroupsFit([first], rest, width);
    WrapGroups([first], rest, width);
    assert [first] + rest == ws;
    WrapCountsFirst(ws, width);
    forall groups | IsLayout(groups, ws, width)
      ensures |WrapFrom(first, rest, width)| <= |groups|
    {
      LayoutContinues(groups, ws, width);
      StaysAhead(|first|, |first|, [groups[0][1..]] + groups[1..], rest, width);
    }
  }

  /** For words none wider than the line, the result is a layout, and one no other layout
      beats, exactly when the first word is narrower than the line. When it fills the line,
      an empty line is emitted first and the rest is optimal. */
  lemma GreedyIsOptimal(ws: seq<Text>, width: int)
    requires AreWords(ws) && EachFits(ws, width)
    ensures IsLayout(GroupFrom([], ws, width), ws, width) <==> StartsWell(ws, width)
    ensures (forall groups :: IsLayout(groups, ws, width) ==> |WrapFrom([], ws, width)| <= |groups|)
      <==> StartsWell(ws, width)
  {
    hide Line, IsWord, WrapFrom, GroupFrom, Flat;
    if ws == [] {
      NoWords(width);
    } else {
      FirstStep(ws, width);
      RestIsBest(ws, width);
      var best := GroupFrom([ws[0]], ws[1..], width);
      assert [] + best == best;
      if !StartsWell(ws, width) {
        assert GroupFrom([], ws, width)[0] == [];
        assert |WrapFrom([], ws, width)| > |best|;
      }
    }
  }

  lemma WrapCountsFirst(ws: seq<Text>, width: int)
    requires AreWords(ws) && ws != []
    ensures |WrapFrom(ws[0], ws[1..], width)| == Count(|ws[0]|, ws[1..], width)
  {
    assert IsWord(ws[0]);
    WrapCounts(ws[0], ws[1..], width);
  }

  lemma NoWords(width: int)
    ensures WrapFrom([], [], width) == [] && GroupFrom([], [], width) == [] && IsLayout([], [], width)
  {
  }

  // ------------------------------------------------------------ the words of a text

  /** Words with white space around and between them. */
  function Spread(gaps: seq<Text>, ws: seq<Text>): Text
    requires |gaps| == |ws| + 1
  {
    if ws == [] then gaps[0] else gaps[0] + (ws[0] + Spread(gaps[1..], ws[1..]))
  }

  /** All gaps are white space, and between two words there is some. */
  predicate Gaps(gaps: seq<Text>) {
    && (forall i :: 0 <= i < |gaps| ==> AllSpace(gaps[i]))
    && forall i :: 0 < i < |gaps| - 1 ==> gaps[i] != []
  }

  lemma {:induction false} WordsAfterSpace(gap: Text, t: Text)
    requires AllSpace(gap)
    ensures Words(gap + t) == Words(t)
  {
    if gap == [] {
      assert gap + t == t;
    } else {
      assert (gap + t)[1..] == gap[1..] + t;
      WordsAfterSpace(gap[1..], t);
    }
  }

  lemma {:induction false} WordLenIs(w: Text, t: Text)
    requires (forall i :: 0 <= i < |w| ==> !IsSpace(w[i])) && (t == [] || IsSpace(t[0]))
    ensures WordLen(w + t) == |w|
  {
    if w == [] {
      assert w + t == t;
    } else {
      assert (w + t)[1..] == w[1..] + t;
      WordLenIs(w[1..], t);
    }
  }

  /** However words are spread over a text, they are its words, all of them, in order. */
  lemma {:induction false} WordsExact(gaps: seq<Text>, ws: seq<Text>)
    requires |gaps| == |ws| + 1 && Gaps(gaps) && AreWords(ws)
    ensures Words(Spread(gaps, ws)) == ws
    decreases ws
  {
    hide IsSpace;
    if ws == [] {
      WordsAfterSpace(gaps[0], []);
      assert gaps[0] + [] == gaps[0];
    } else {
      var rest := Spread(gaps[1..], ws[1..]);
      WordsAfterSpace(gaps[0], ws[0] + rest);
      assert forall i :: 0 <= i < |gaps[1..]| ==> gaps[1..][i] == gaps[i + 1];
      WordsExact(gaps[1..], ws[1..]);
      SpreadStarts(gaps, ws);
      WordLenIs(ws[0], rest);
      assert (ws[0] + rest)[..|ws[0]|] == ws[0] && (ws[0] + rest)[|ws[0]|..] == rest;
    }
  }

  lemma SpreadStarts(gaps: seq<Text>, ws: seq<Text>)
    requires |gaps| == |ws| + 1 && ws != [] && Gaps(gaps)
    ensures var rest := Spread(gaps[1..], ws[1..]); rest == [] || IsSpace(rest[0])
  {
    hide IsSpace;
  }

  lemma SpreadHead(gaps: seq<Text>, ws: seq<Text>)
    requires |gaps| == |ws| + 1 && ws != [] && AreWords(ws) && gaps[0] == []
    ensures Spread(gaps, ws) != [] && !IsSpace(Spread(gaps, ws)[0])
  {
  }

  /** Every text is spread words. */
  lemma {:induction false} TextIsSpread(t: Text) returns (gaps: seq<Text>, ws: seq<Text>)
    ensures |gaps| == |ws| + 1 && Gaps(gaps) && AreWords(ws) && Spread(gaps, ws) == t
    ensures t != [] && !IsSpace(t[0]) ==> gaps[0] == []
    decreases |t|
  {
    if t == [] {
      gaps, ws := [[]], [];
    } else if IsSpace(t[0]) {
      gaps, ws := TextIsSpread(t[1..]);
      var more := [[t[0]] + gaps[0]] + gaps[1..];
      assert more[1..] == gaps[1..];
      gaps := more;
    } else {
      var n := WordLen(t);
      var rest, tail := TextIsSpread(t[n..]);
      gaps, ws := [[]] + rest, [t[..n]] + tail;
      assert gaps[1..] == rest && ws[1..] == tail;
      assert [] + (t[..n] + t[n..]) == t;
      if tail != [] && rest[0] == [] {
        SpreadHead(rest, tail);
      }
    }
  }
}
