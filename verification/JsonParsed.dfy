/** What `json.loads` can return: well-formed values, and pair-free ones when the text holds
    no raw surrogate, which text decoded from UTF-8 never does. */
module JsonParsed {
  import opened Texts
  import opened JsonNumber
  import opened Json
  import opened JsonText
  import opened Scanner
  import opened ScannerGrammar

  predicate NoSurrogates(t: Text) {
    forall i :: 0 <= i < |t| ==> !IsHigh(t[i]) && !IsLow(t[i])
  }

  const ANYWHERE := State(1, false, false, [], [])

  lemma PartsClean(c: Text, rest: Text)
    requires NoSurrogates(c + rest)
    ensures NoSurrogates(c) && NoSurrogates(rest)
  {
    assert forall i :: 0 <= i < |c| ==> c[i] == (c + rest)[i];
    assert forall i :: 0 <= i < |rest| ==> rest[i] == (c + rest)[|c| + i];
  }

  lemma EscapeRestClean(t: Text)
    requires NoSurrogates(t) && t != [] && t[0] == BACKSLASH && ParseEscape(t[1..]).Done?
    ensures NoSurrogates(ParseEscape(t[1..]).rest)
  {
    var c := EscapeScan(ANYWHERE, t);
    PartsClean(c, ParseEscape(t[1..]).rest);
  }

  /** An escape yields a high surrogate only when no low one is escaped right after it. */
  lemma EscapeLeavesNoPair(t: Text)
    requires ParseEscape(t).Done?
    ensures IsHigh(ParseEscape(t).value) ==> LowAhead(ParseEscape(t).rest) == None
    ensures IsLow(ParseEscape(t).value) ==> t[0] == LETTER_U && ReadHex4(t[1..]).Done? && IsLow(ReadHex4(t[1..]).value)
  {
  }

  /** A low surrogate at the front of a parsed string was escaped in the text. */
  lemma LowWasEscaped(t: Text)
    requires NoSurrogates(t) && ParseChars(t).Done?
    requires ParseChars(t).value != [] && IsLow(ParseChars(t).value[0])
    ensures LowAhead(t).Some?
  {
    hide ParseEscape;
    if t[0] == BACKSLASH {
      EscapeLeavesNoPair(t[1..]);
      assert t[1..][1..] == t[2..];
    }
  }

  lemma {:induction false} CharsClean(t: Text)
    requires NoSurrogates(t) && ParseChars(t).Done?
    ensures PairFree(ParseChars(t).value) && NoSurrogates(ParseChars(t).rest)
    decreases |t|
  {
    hide ParseEscape, LowAhead;
    if t[0] == BACKSLASH {
      var after := ParseEscape(t[1..]).rest;
      EscapeRestClean(t);
      EscapeLeavesNoPair(t[1..]);
      CharsClean(after);
      ConsPairFree(ParseEscape(t[1..]).value, after);
    } else if t[0] != QUOTE {
      CharsClean(t[1..]);
      ConsPairFree(t[0], t[1..]);
    }
  }

  lemma ConsPairFree(c: CodePoint, after: Text)
    requires NoSurrogates(after) && ParseChars(after).Done? && PairFree(ParseChars(after).value)
    requires IsHigh(c) ==> LowAhead(after) == None
    ensures PairFree([c] + ParseChars(after).value)
  {
    hide ParseChars, LowAhead;
    var s := ParseChars(after).value;
    if s != [] && IsLow(s[0]) {
      LowWasEscaped(after);
    }
    assert forall i :: 0 < i < |s| ==> ([c] + s)[i] == s[i - 1];
  }

  // ------------------------------------------------------------ values

  /** Well-formed, and pair-free when the text was free of raw surrogates. */
  ghost predicate Good(t: Text, v: Value) {
    WellFormed(v) && (NoSurrogates(t) ==> AllPairFree(v))
  }

  lemma AtomGood(t: Text)
    requires t != [] && ParseAtom(t).Done?
    ensures Good(t, ParseAtom(t).value)
  {
    hide LexNumber;
    if !ParseAtom(t).value.Null? && !ParseAtom(t).value.Bool? {
      NumberGood(t);
    }
  }

  lemma NumberGood(t: Text)
    ensures ParseNumber(t).Done? ==> Good(t, ParseNumber(t).value)
  {
    hide LexNumber, IntValue;
    var c := t[..LexNumber(t).len];
    var y := t[|c|..];
    assert c + y == t;
    if c != [] {
      NumberCut(c, y, []);
      assert c + [] == c;
    }
  }

  ghost predicate GoodItems(t: Text, vs: seq<Value>) {
    forall i :: 0 <= i < |vs| ==> Good(t, vs[i])
  }

  ghost predicate GoodFields(t: Text, fs: seq<Field>) {
    forall i :: 0 <= i < |fs| ==> GoodField(t, fs[i])
  }

  ghost predicate GoodField(t: Text, f: Field) {
    Good(t, f.value) && (NoSurrogates(t) ==> PairFree(f.key))
  }

  lemma ObjectGood(t: Text, fs: seq<Field>)
    requires GoodFields(t, fs)
    ensures Good(t, Obj(Dict(fs)))
  {
    DictDistinct(fs);
    var ds := Dict(fs);
    forall i | 0 <= i < |ds|
      ensures GoodField(t, ds[i])
    {
      assert ds[i] in fs;
    }
  }

  lemma ArrayGood(t: Text, vs: seq<Value>)
    requires GoodItems(t, vs)
    ensures Good(t, Arr(vs))
  {
  }

  /** The text after a stretch the scanner walked over is as clean as the whole. */
  lemma RestClean(t: Text, c: Text, rest: Text)
    requires t == c + rest
    ensures NoSurrogates(t) ==> NoSurrogates(rest)
  {
    if NoSurrogates(t) {
      PartsClean(c, rest);
    }
  }

  lemma {:induction false} ValueGood(t: Text)
    requires ParseValue(t).Done?
    ensures Good(t, ParseValue(t).value)
    ensures NoSurrogates(t) ==> NoSurrogates(ParseValue(t).rest)
    decreases |t|, 2
  {
    hide ParseChars, ParseMembers, ParseElements, ParseAtom, Dict, NoSurrogates, AllPairFree, PairFree;
    var c := ValueScan(ANYWHERE, t);
    RestClean(t, c, ParseValue(t).rest);
    RestClean(t, [t[0]], t[1..]);
    if t[0] == QUOTE {
      if NoSurrogates(t) {
        CharsClean(t[1..]);
        StringPairFree(ParseChars(t[1..]).value);
      }
    } else if t[0] == LBRACE {
      MembersGood(t[1..]);
      var fs := ParseMembers(t[1..]).value;
      GoodFieldsMono(t, t[1..], fs);
      ObjectGood(t, fs);
    } else if t[0] == LBRACKET {
      ElementsGood(t[1..]);
      var vs := ParseElements(t[1..]).value;
      GoodItemsMono(t, t[1..], vs);
      ArrayGood(t, vs);
    } else {
      AtomGood(t);
    }
  }

  lemma StringPairFree(s: Text)
    requires PairFree(s)
    ensures AllPairFree(Str(s))
  {
  }

  lemma GoodItemsMono(t: Text, u: Text, vs: seq<Value>)
    requires GoodItems(u, vs) && (NoSurrogates(t) ==> NoSurrogates(u))
    ensures GoodItems(t, vs)
  {
    hide NoSurrogates, AllPairFree, WellFormed;
  }

  lemma GoodFieldsMono(t: Text, u: Text, fs: seq<Field>)
    requires GoodFields(u, fs) && (NoSurrogates(t) ==> NoSurrogates(u))
    ensures GoodFields(t, fs)
  {
    hide NoSurrogates, AllPairFree, WellFormed;
  }

  lemma {:induction false} ElementsGood(t: Text)
    requires ParseElements(t).Done?
    ensures GoodItems(t, ParseElements(t).value)
    decreases |t|, 4
  {
    hide ParseItems, SkipSpace, NoSurrogates, WellFormed, AllPairFree;
    var u := SkipSpace(t);
    if !(u != [] && u[0] == RBRACKET) {
      SpaceStaysClean(t);
      ItemsGood(u);
      GoodItemsMono(t, u, ParseItems(u).value);
    }
  }

  lemma SpaceStaysClean(t: Text)
    ensures NoSurrogates(t) ==> NoSurrogates(SkipSpace(t))
  {
    var c := SpaceScan(ANYWHERE, t);
    RestClean(t, c, SkipSpace(t));
  }

  /** From one item or member to the next, over the comma. */
  lemma NextClean(t: Text, after: Text)
    requires SkipSpace(after) != []
    requires NoSurrogates(t) ==> NoSurrogates(after)
    ensures NoSurrogates(t) ==> NoSurrogates(SkipSpace(SkipSpace(after)[1..]))
  {
    hide SkipSpace, NoSurrogates;
    var u := SkipSpace(after);
    SpaceStaysClean(after);
    assert u == [u[0]] + u[1..];
    RestClean(u, [u[0]], u[1..]);
    SpaceStaysClean(u[1..]);
  }

  lemma {:induction false} ItemsGood(t: Text)
    requires ParseItems(t).Done?
    ensures GoodItems(t, ParseItems(t).value)
    decreases |t|, 3
  {
    hide ParseValue, SkipSpace, NoSurrogates, WellFormed, AllPairFree;
    ValueGood(t);
    var after := ParseValue(t).rest;
    var u := SkipSpace(after);
    if u[0] != RBRACKET {
      NextClean(t, after);
      var next := SkipSpace(u[1..]);
      ItemsGood(next);
      GoodItemsMono(t, next, ParseItems(next).value);
    }
  }

  lemma {:induction false} MembersGood(t: Text)
    requires ParseMembers(t).Done?
    ensures GoodFields(t, ParseMembers(t).value)
    decreases |t|, 4
  {
    hide ParseFields, SkipSpace, NoSurrogates, WellFormed, AllPairFree;
    var u := SkipSpace(t);
    if !(u != [] && u[0] == RBRACE) {
      SpaceStaysClean(t);
      FieldsGood(u);
      GoodFieldsMono(t, u, ParseFields(u).value);
    }
  }

  lemma {:induction false} FieldsGood(t: Text)
    requires ParseFields(t).Done?
    ensures GoodFields(t, ParseFields(t).value)
    decreases |t|, 3
  {
    hide ParseField, SkipSpace, NoSurrogates, WellFormed, AllPairFree;
    FieldGood(t);
    var after := ParseField(t).rest;
    var u := SkipSpace(after);
    if u[0] != RBRACE {
      NextClean(t, after);
      var next := SkipSpace(u[1..]);
      FieldsGood(next);
      GoodFieldsMono(t, next, ParseFields(next).value);
    }
  }

  lemma {:induction false} FieldGood(t: Text)
    requires ParseField(t).Done?
    ensures GoodField(t, ParseField(t).value)
    ensures NoSurrogates(t) ==> NoSurrogates(ParseField(t).rest)
    decreases |t|, 2
  {
    hide ParseValue, ParseChars, SkipSpace, NoSurrogates, WellFormed, AllPairFree, PairFree;
    RestClean(t, [t[0]], t[1..]);
    assert t == [t[0]] + t[1..];
    if NoSurrogates(t) {
      CharsClean(t[1..]);
    }
    var after := ParseChars(t[1..]).rest;
    NextClean(t, after);
    ValueGood(SkipSpace(SkipSpace(after)[1..]));
  }

  /** Everything read is well formed, and pair-free when the text has no raw surrogate. */
  lemma LoadsGood(t: Text)
    requires Loads(t).Some?
    ensures WellFormed(Loads(t).value)
    ensures NoSurrogates(t) ==> AllPairFree(Loads(t).value)
  {
    hide ParseValue, SkipSpace, NoSurrogates, WellFormed, AllPairFree;
    SpaceStaysClean(t);
    ValueGood(SkipSpace(t));
  }
}
