/** The scanner agrees with the JSON grammar: over any text the parser reads as a value,
    it comes back to the depth and string state it had, and for an object it closes at the
    object's own last brace, neither earlier nor later. */
module ScannerGrammar {
  import opened Texts
  import opened JsonNumber
  import opened Json
  import opened JsonText
  import opened Scanner

  /** Inside some object, between tokens. */
  predicate Inside(s: State) {
    s.depth >= 1 && !s.inString && !s.escape
  }

  function Grow(s: State, c: Text): State {
    s.(pending := s.pending + c)
  }

  lemma GrowTwice(s: State, a: Text, b: Text)
    ensures Grow(Grow(s, a), b) == Grow(s, a + b)
  {
    assert s.pending + a + b == s.pending + (a + b);
  }

  /** Feeding two stretches that each leave the state alone. */
  lemma FeedBoth(s: State, a: Text, b: Text)
    requires Feed(s, a) == Grow(s, a) && Feed(Grow(s, a), b) == Grow(Grow(s, a), b)
    ensures Feed(s, a + b) == Grow(s, a + b)
  {
    FeedConcat(s, a, b);
    GrowTwice(s, a, b);
  }

  predicate Plain(c: Text) {
    forall i :: 0 <= i < |c| ==> c[i] != QUOTE && c[i] != LBRACE && c[i] != RBRACE
  }

  lemma {:induction false} PlainFeed(s: State, c: Text)
    requires Inside(s) && Plain(c)
    ensures Feed(s, c) == Grow(s, c)
    decreases c
  {
    if c == [] {
      assert s.pending + [] == s.pending;
    } else {
      PlainFeed(Step(s, c[0]), c[1..]);
      GrowTwice(s, [c[0]], c[1..]);
      assert [c[0]] + c[1..] == c;
    }
  }

  /** Inside a string: only a quote or a backslash matters. */
  predicate Quoted(c: Text) {
    forall i :: 0 <= i < |c| ==> c[i] != QUOTE && c[i] != BACKSLASH
  }

  function InString(s: State): State {
    s.(inString := true)
  }

  lemma {:induction false} QuotedFeed(s: State, c: Text)
    requires Inside(s) && Quoted(c)
    ensures Feed(InString(s), c) == Grow(InString(s), c)
    decreases c
  {
    if c == [] {
      assert s.pending + [] == s.pending;
    } else {
      QuotedFeed(Grow(s, [c[0]]), c[1..]);
      GrowTwice(s, [c[0]], c[1..]);
      assert [c[0]] + c[1..] == c;
    }
  }

  /** The characters of one escape, backslash first. */
  lemma EscapeFeed(s: State, c: Text)
    requires Inside(s) && |c| >= 2 && c[0] == BACKSLASH && Quoted(c[2..])
    ensures Feed(InString(s), c) == Grow(InString(s), c)
  {
    var s2 := Grow(Grow(s, [c[0]]), [c[1]]);
    FeedOne(InString(s), c[0]);
    FeedOne(InString(Grow(s, [c[0]])).(escape := true), c[1]);
    FeedConcat(InString(s), [c[0]], [c[1]]);
    assert Feed(InString(s), [c[0]] + [c[1]]) == InString(s2);
    FeedConcat(InString(s), [c[0]] + [c[1]], c[2..]);
    QuotedFeed(s2, c[2..]);
    assert [c[0]] + [c[1]] + c[2..] == c;
    GrowTwice(s, [c[0]], [c[1]]);
    GrowTwice(s, [c[0]] + [c[1]], c[2..]);
  }

  lemma HexQuoted(t: Text)
    requires ReadHex4(t).Done?
    ensures Quoted(t[..4])
  {
  }

  /** One `\uXXXX` escape. */
  lemma UnitFeed(s: State, t: Text)
    requires Inside(s) && |t| >= 2 && t[0] == BACKSLASH && ReadHex4(t[2..]).Done?
    ensures Feed(InString(s), t[..6]) == Grow(InString(s), t[..6])
  {
    hide Feed;
    HexQuoted(t[2..]);
    assert t[..6][2..] == t[2..][..4];
    EscapeFeed(s, t[..6]);
  }

  lemma EscapeScan(s: State, t: Text) returns (c: Text)
    requires Inside(s) && t != [] && t[0] == BACKSLASH && ParseEscape(t[1..]).Done?
    ensures t == c + ParseEscape(t[1..]).rest
    ensures Feed(InString(s), c) == Grow(InString(s), c)
  {
    hide Feed;
    if t[1] == LETTER_U {
      assert t[1..][1..] == t[2..];
      var after := t[6..];
      assert t[2..][4..] == after;
      UnitFeed(s, t);
      if IsHigh(ReadHex4(t[2..]).value) && LowAhead(after).Some? {
        c := t[..6] + after[..6];
        UnitFeed(Grow(s, t[..6]), after);
        FeedConcat(InString(s), t[..6], after[..6]);
        GrowTwice(s, t[..6], after[..6]);
      } else {
        c := t[..6];
      }
    } else {
      c := t[..2];
      EscapeFeed(s, c);
    }
  }

  /** The rest of a string and its closing quote. */
  lemma {:induction false} CharsScan(s: State, t: Text) returns (c: Text)
    requires Inside(s) && ParseChars(t).Done?
    ensures t == c + ParseChars(t).rest
    ensures Feed(InString(s), c) == Grow(s, c)
    decreases |t|
  {
    hide Feed, ParseEscape;
    if t[0] == QUOTE {
      c := [QUOTE];
      FeedOne(InString(s), QUOTE);
    } else {
      var first: Text, after: Text;
      if t[0] == BACKSLASH {
        first := EscapeScan(s, t);
        after := ParseEscape(t[1..]).rest;
      } else {
        first, after := [t[0]], t[1..];
        QuotedFeed(s, first);
      }
      var more := CharsScan(Grow(s, first), after);
      c := first + more;
      FeedConcat(InString(s), first, more);
      GrowTwice(s, first, more);
    }
  }

  lemma StringScan(s: State, t: Text) returns (c: Text)
    requires Inside(s) && t != [] && t[0] == QUOTE && ParseChars(t[1..]).Done?
    ensures t == c + ParseChars(t[1..]).rest
    ensures Feed(s, c) == Grow(s, c)
  {
    hide Feed, ParseChars;
    var more := CharsScan(Grow(s, [QUOTE]), t[1..]);
    c := [QUOTE] + more;
    FeedOne(s, QUOTE);
    FeedConcat(s, [QUOTE], more);
    GrowTwice(s, [QUOTE], more);
  }

  lemma {:induction false} SpaceScan(s: State, t: Text) returns (c: Text)
    requires Inside(s)
    ensures t == c + SkipSpace(t)
    ensures Feed(s, c) == Grow(s, c)
    ensures AllJsonSpace(c)
  {
    c := SpacePrefix(t);
    PlainFeed(s, c);
  }

  lemma {:induction false} SpacePrefix(t: Text) returns (c: Text)
    ensures t == c + SkipSpace(t) && AllJsonSpace(c)
  {
    if t != [] && IsJsonSpace(t[0]) {
      var more := SpacePrefix(t[1..]);
      c := [t[0]] + more;
    } else {
      c := [];
    }
  }

  lemma AtomScan(s: State, t: Text) returns (c: Text)
    requires Inside(s) && t != [] && ParseAtom(t).Done?
    ensures t == c + ParseAtom(t).rest
    ensures Feed(s, c) == Grow(s, c)
  {
    c := AtomPrefix(t);
    PlainFeed(s, c);
  }

  lemma AtomPrefix(t: Text) returns (c: Text)
    requires t != [] && ParseAtom(t).Done?
    ensures t == c + ParseAtom(t).rest && Plain(c)
  {
    hide LexNumber;
    if t[0] == NULL[0] {
      c := NULL;
    } else if t[0] == TRUE[0] {
      c := TRUE;
    } else if t[0] == FALSE[0] {
      c := FALSE;
    } else if t[0] == NAN[0] {
      c := NAN;
    } else if t[0] == INFINITY[0] {
      c := INFINITY;
    } else if MINUS_INFINITY <= t {
      c := MINUS_INFINITY;
    } else {
      c := t[..LexNumber(t).len];
      NumberChars(t);
      assert forall i :: 0 <= i < |c| ==> NumberChar(c[i]);
    }
  }

  // ------------------------------------------------------------ values

  lemma {:induction false} ValueScan(s: State, t: Text) returns (c: Text)
    requires Inside(s) && ParseValue(t).Done?
    ensures t == c + ParseValue(t).rest
    ensures Feed(s, c) == Grow(s, c)
    decreases |t|, 2
  {
    hide Feed, ParseChars, ParseMembers, ParseElements, ParseAtom, Dict;
    if t[0] == QUOTE {
      c := StringScan(s, t);
    } else if t[0] == LBRACE {
      var body := MembersScan(Grow(s, [LBRACE]).(depth := s.depth + 1), t[1..]);
      c := [LBRACE] + body + [RBRACE];
      BracesFeed(s, body);
    } else if t[0] == LBRACKET {
      PlainFeed(s, [LBRACKET]);
      var more := ElementsScan(Grow(s, [LBRACKET]), t[1..]);
      c := [LBRACKET] + more;
      FeedBoth(s, [LBRACKET], more);
    } else {
      c := AtomScan(s, t);
    }
  }

  lemma BracesFeed(s: State, body: Text)
    requires Inside(s)
    requires var s1 := Grow(s, [LBRACE]).(depth := s.depth + 1); Feed(s1, body) == Grow(s1, body)
    ensures Feed(s, [LBRACE] + body + [RBRACE]) == Grow(s, [LBRACE] + body + [RBRACE])
  {
    hide Feed;
    var s1 := Grow(s, [LBRACE]).(depth := s.depth + 1);
    FeedOne(s, LBRACE);
    FeedConcat(s, [LBRACE], body);
    FeedConcat(s, [LBRACE] + body, [RBRACE]);
    FeedOne(Grow(s1, body), RBRACE);
    GrowTwice(s, [LBRACE], body);
    GrowTwice(s, [LBRACE] + body, [RBRACE]);
  }

  lemma {:induction false} ElementsScan(s: State, t: Text) returns (c: Text)
    requires Inside(s) && ParseElements(t).Done?
    ensures t == c + ParseElements(t).rest
    ensures Feed(s, c) == Grow(s, c)
    decreases |t|, 4
  {
    hide Feed, ParseItems, SkipSpace;
    var gap := SpaceScan(s, t);
    var u := SkipSpace(t);
    var more: Text;
    if u != [] && u[0] == RBRACKET {
      more := [RBRACKET];
      PlainFeed(Grow(s, gap), more);
    } else {
      more := ItemsScan(Grow(s, gap), u);
    }
    c := gap + more;
    FeedBoth(s, gap, more);
  }

  lemma {:induction false} ItemsScan(s: State, t: Text) returns (c: Text)
    requires Inside(s) && ParseItems(t).Done?
    ensures t == c + ParseItems(t).rest
    ensures Feed(s, c) == Grow(s, c)
    decreases |t|, 3
  {
    hide Feed, ParseValue, SkipSpace;
    var v := ValueScan(s, t);
    var after := ParseValue(t).rest;
    var gap := SpaceScan(Grow(s, v), after);
    FeedBoth(s, v, gap);
    var front := v + gap;
    GrowTwice(s, v, gap);
    var u := SkipSpace(after);
    var more: Text;
    if u[0] == RBRACKET {
      more := [RBRACKET];
      PlainFeed(Grow(s, front), more);
    } else {
      more := CommaScan(Grow(s, front), u);
      var items := ItemsScan(Grow(Grow(s, front), more), SkipSpace(u[1..]));
      FeedBoth(Grow(s, front), more, items);
      more := more + items;
    }
    c := front + more;
    FeedBoth(s, front, more);
  }

  /** A comma or a colon, and the space after it. */
  lemma CommaScan(s: State, u: Text) returns (c: Text)
    requires Inside(s) && u != [] && (u[0] == COMMA || u[0] == COLON)
    ensures u == c + SkipSpace(u[1..])
    ensures Feed(s, c) == Grow(s, c)
  {
    hide Feed, SkipSpace;
    PlainFeed(s, [u[0]]);
    var gap := SpaceScan(Grow(s, [u[0]]), u[1..]);
    c := [u[0]] + gap;
    FeedBoth(s, [u[0]], gap);
  }

  /** The members of an object up to, and not including, its closing brace. */
  lemma {:induction false} MembersScan(s: State, t: Text) returns (c: Text)
    requires Inside(s) && ParseMembers(t).Done?
    ensures t == c + [RBRACE] + ParseMembers(t).rest
    ensures Feed(s, c) == Grow(s, c)
    decreases |t|, 4
  {
    hide Feed, ParseFields, SkipSpace;
    var gap := SpaceScan(s, t);
    var u := SkipSpace(t);
    if u != [] && u[0] == RBRACE {
      c := gap;
    } else {
      var more := FieldsScan(Grow(s, gap), u);
      c := gap + more;
      FeedBoth(s, gap, more);
    }
  }

  lemma {:induction false} FieldsScan(s: State, t: Text) returns (c: Text)
    requires Inside(s) && ParseFields(t).Done?
    ensures t == c + [RBRACE] + ParseFields(t).rest
    ensures Feed(s, c) == Grow(s, c)
    decreases |t|, 3
  {
    hide Feed, ParseField, SkipSpace;
    var f := FieldScan(s, t);
    var after := ParseField(t).rest;
    var gap := SpaceScan(Grow(s, f), after);
    FeedBoth(s, f, gap);
    var front := f + gap;
    GrowTwice(s, f, gap);
    var u := SkipSpace(after);
    if u[0] == RBRACE {
      c := front;
    } else {
      var more := CommaScan(Grow(s, front), u);
      var fields := FieldsScan(Grow(Grow(s, front), more), SkipSpace(u[1..]));
      FeedBoth(Grow(s, front), more, fields);
      c := front + (more + fields);
      FeedBoth(s, front, more + fields);
    }
  }

  lemma {:induction false} FieldScan(s: State, t: Text) returns (c: Text)
    requires Inside(s) && ParseField(t).Done?
    ensures t == c + ParseField(t).rest
    ensures Feed(s, c) == Grow(s, c)
    decreases |t|, 2
  {
    hide Feed, ParseValue, ParseChars, SkipSpace;
    var key := StringScan(s, t);
    var after := ParseChars(t[1..]).rest;
    var gap := SpaceScan(Grow(s, key), after);
    FeedBoth(s, key, gap);
    var front := key + gap;
    GrowTwice(s, key, gap);
    var u := SkipSpace(after);
    var colon := CommaScan(Grow(s, front), u);
    var v := ValueScan(Grow(Grow(s, front), colon), SkipSpace(u[1..]));
    FeedBoth(Grow(s, front), colon, v);
    c := front + (colon + v);
    FeedBoth(s, front, colon + v);
  }
}
