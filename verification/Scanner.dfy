/** The brace, string and escape scanner that cuts JSON objects out of a model's reply
    (engine/steward/steward-parse.py). `Feed` is its specification, one step a character. */
module Scanner {
  import opened Texts
  import opened Json
  import opened JsonText

  const VERB: Text := [118, 101, 114, 98]

  /** `pending` is the text since the outermost open brace; it is empty at depth 0. */
  datatype State = State(depth: nat, inString: bool, escape: bool, pending: Text, found: seq<Value>)

  const START := State(0, false, false, [], [])

  predicate IsCandidate(v: Value) {
    v.Obj? && HasKey(v.fields, VERB)
  }

  /** What a balanced chunk contributes: the object it is, if that names a verb. */
  function Candidate(chunk: Text): seq<Value> {
    match Loads(chunk)
    case Some(v) => if IsCandidate(v) then [v] else []
    case None => []
  }

  function Step(s: State, c: CodePoint): State {
    var grown := if s.depth > 0 then s.(pending := s.pending + [c]) else s;
    if s.inString then
      if s.escape then grown.(escape := false)
      else if c == BACKSLASH then grown.(escape := true)
      else if c == QUOTE then grown.(inString := false)
      else grown
    else if c == QUOTE then grown.(inString := true)
    else if c == LBRACE then s.(depth := s.depth + 1, pending := s.pending + [c])
    else if c == RBRACE && s.depth > 0 then
      if s.depth == 1 then s.(depth := 0, pending := [], found := s.found + Candidate(s.pending + [c]))
      else grown.(depth := s.depth - 1)
    else grown
  }

  function Feed(s: State, t: Text): State
    decreases t
  {
    if t == [] then s else Feed(Step(s, t[0]), t[1..])
  }

  function Candidates(t: Text): seq<Value> {
    Feed(START, t).found
  }

  /** The text leaves the scanner at depth 0 and outside a string. */
  predicate Neutral(t: Text) {
    var s := Feed(START, t);
    s.depth == 0 && !s.inString
  }

  lemma {:induction false} FeedConcat(s: State, a: Text, b: Text)
    ensures Feed(s, a + b) == Feed(Feed(s, a), b)
    decreases a
  {
    if a == [] {
      assert a + b == b;
    } else {
      assert (a + b)[1..] == a[1..] + b;
      FeedConcat(Step(s, a[0]), a[1..], b);
    }
  }

  lemma FeedOne(s: State, c: CodePoint)
    ensures Feed(s, [c]) == Step(s, c)
  {
    assert [c][1..] == [];
  }

  lemma FeedSnoc(t: Text, i: nat)
    requires i < |t|
    ensures Feed(START, t[..i + 1]) == Step(Feed(START, t[..i]), t[i])
  {
    FeedConcat(START, t[..i], [t[i]]);
    FeedOne(Feed(START, t[..i]), t[i]);
    assert t[..i + 1] == t[..i] + [t[i]];
  }

  /** An escape is only ever pending inside a string, and text only inside braces. */
  predicate Sound(s: State) {
    (s.escape ==> s.inString) && (s.depth == 0 ==> s.pending == [])
  }

  lemma {:induction false} FeedSound(s: State, t: Text)
    requires Sound(s)
    ensures Sound(Feed(s, t))
    decreases t
  {
    if t != [] {
      FeedSound(Step(s, t[0]), t[1..]);
    }
  }

  /** The same state with more found before it. */
  function After(earlier: seq<Value>, s: State): State {
    s.(found := earlier + s.found)
  }

  lemma StepAfter(earlier: seq<Value>, s: State, c: CodePoint)
    ensures Step(After(earlier, s), c) == After(earlier, Step(s, c))
  {
    hide Candidate;
    var more := Candidate(s.pending + [c]);
    assert (earlier + s.found) + more == earlier + (s.found + more);
  }

  /** What was found before does not influence what is found next. */
  lemma {:induction false} FeedAfter(earlier: seq<Value>, s: State, t: Text)
    ensures Feed(After(earlier, s), t) == After(earlier, Feed(s, t))
    decreases t
  {
    hide Step;
    if t != [] {
      StepAfter(earlier, s, t[0]);
      FeedAfter(earlier, Step(s, t[0]), t[1..]);
    }
  }

  /** A span of the text and the object it holds. */
  ghost predicate Located(text: Text, spans: seq<(nat, nat)>, found: seq<Value>) {
    && |spans| == |found|
    && (forall k :: 0 <= k < |spans| ==>
          && spans[k].0 < spans[k].1 <= |text|
          && text[spans[k].0] == LBRACE
          && Loads(text[spans[k].0..spans[k].1]) == Some(found[k])
          && IsCandidate(found[k]))
    && (forall k :: 0 <= k < |spans| - 1 ==> spans[k].1 <= spans[k + 1].0)
  }

  lemma CandidateOf(chunk: Text)
    ensures var obj := Loads(chunk);
      Candidate(chunk) == if obj.Some? && IsCandidate(obj.value) then [obj.value] else []
  {
    hide Loads, IsCandidate;
  }

  lemma LocateNext(text: Text, spans: seq<(nat, nat)>, found: seq<Value>, start: nat, end: nat, v: Value)
    requires Located(text, spans, found)
    requires start < end <= |text| && text[start] == LBRACE && Loads(text[start..end]) == Some(v) && IsCandidate(v)
    requires spans != [] ==> spans[|spans| - 1].1 <= start
    ensures Located(text, spans + [(start, end)], found + [v])
  {
    hide Loads, IsCandidate;
  }

  /** Every candidate stands in the text: spans in order, disjoint, each one starting at a
      brace and holding exactly the text of the object found. */
  lemma {:induction false} CandidatesStandInText(text: Text) returns (spans: seq<(nat, nat)>)
    ensures Located(text, spans, Candidates(text))
  {
    var start;
    spans, start := LocateUpTo(text, |text|);
    assert text[..|text|] == text;
  }

  lemma {:induction false} LocateUpTo(text: Text, i: nat) returns (spans: seq<(nat, nat)>, start: int)
    requires i <= |text|
    ensures -1 <= start < i && Tracks(text, i, start)
    ensures Located(text, spans, Feed(START, text[..i]).found)
    ensures spans != [] ==> spans[|spans| - 1].1 <= if start == -1 then i else start
  {
    hide Loads, IsCandidate, Located, Pending, Candidate, Feed;
    if i == 0 {
      NothingYet(text);
      spans, start := [], -1;
    } else {
      var before, open := LocateUpTo(text, i - 1);
      var s := Feed(START, text[..i - 1]);
      FeedSnoc(text, i - 1);
      PendingGrows(text, open, i - 1);
      if s.depth == 1 && !s.inString && text[i - 1] == RBRACE {
        PendingIs(text, open, i);
        spans := LocateClosed(text, i, s, before, open);
        start := -1;
      } else {
        spans := before;
        start := if s.depth == 0 && !s.inString && text[i - 1] == LBRACE then i - 1 else open;
      }
    }
  }

  lemma NothingYet(text: Text)
    ensures text[..0] == [] && Located(text, [], []) && Feed(START, []) == START
    ensures Tracks(text, 0, -1) && Pending(text, -1, 0) == []
  {
    assert text[..0] == [];
  }

  lemma LocateClosed(text: Text, i: nat, s: State, before: seq<(nat, nat)>, open: nat) returns (spans: seq<(nat, nat)>)
    requires open < i <= |text| && text[open] == LBRACE
    requires s.pending + [text[i - 1]] == text[open..i]
    requires Located(text, before, s.found) && (before != [] ==> before[|before| - 1].1 <= open)
    ensures Located(text, spans, s.found + Candidate(s.pending + [text[i - 1]]))
    ensures spans != [] ==> spans[|spans| - 1].1 <= i
  {
    hide Loads, IsCandidate, Located;
    var obj := Loads(text[open..i]);
    if obj.Some? && IsCandidate(obj.value) {
      spans := before + [(open, i)];
      LocateNext(text, before, s.found, open, i, obj.value);
    } else {
      spans := before;
      assert s.found + [] == s.found;
    }
  }

  function Pending(text: Text, start: int, i: nat): Text
    requires -1 <= start <= i <= |text|
  {
    if start == -1 then [] else text[start..i]
  }

  lemma PendingGrows(text: Text, start: int, i: nat)
    requires -1 <= start <= i < |text|
    ensures start >= 0 ==> Pending(text, start, i) + [text[i]] == Pending(text, start, i + 1)
    ensures Pending(text, -1, i) + [text[i]] == Pending(text, i, i + 1)
    ensures Pending(text, -1, i) == Pending(text, -1, i + 1) == []
  {
  }

  lemma PendingIs(text: Text, start: nat, i: nat)
    requires start <= i <= |text|
    ensures Pending(text, start, i) == text[start..i]
  {
  }

  /** `start` is where the outermost open brace stands, -1 at depth 0. */
  ghost predicate Tracks(text: Text, i: nat, start: int)
    requires -1 <= start <= i <= |text|
  {
    var s := Feed(START, text[..i]);
    && (start == -1 <==> s.depth == 0)
    && s.pending == Pending(text, start, i)
    && (start >= 0 ==> start < |text| && text[start] == LBRACE)
  }

  /** `_candidates` */
  method FindCandidates(text: Text) returns (found: seq<Value>)
    ensures found == Candidates(text)
  {
    hide Loads, IsCandidate, Feed, Pending, Candidate;
    NothingYet(text);
    found := [];
    var depth: nat, start, inString, escape := 0, -1, false, false;
    for i := 0 to |text|
      invariant -1 <= start < i && (start == -1 <==> depth == 0)
      invariant Feed(START, text[..i]) == State(depth, inString, escape, Pending(text, start, i), found)
    {
      FeedSnoc(text, i);
      PendingGrows(text, start, i);
      var ch := text[i];
      if inString {
        if escape {
          escape := false;
        } else if ch == BACKSLASH {
          escape := true;
        } else if ch == QUOTE {
          inString := false;
        }
        continue;
      }
      if ch == QUOTE {
        inString := true;
      } else if ch == LBRACE {
        if depth == 0 {
          start := i;
        }
        depth := depth + 1;
      } else if ch == RBRACE {
        if depth > 0 {
          depth := depth - 1;
          if depth == 0 {
            var chunk := text[start..i + 1];
            PendingIs(text, start, i + 1);
            CandidateOf(chunk);
            var obj := Loads(chunk);
            if obj.Some? && IsCandidate(obj.value) {
              found := found + [obj.value];
            }
            start := -1;
          }
        }
      }
    }
    assert text[..|text|] == text;
  }
}
