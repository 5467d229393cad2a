/** Printing then parsing: what `json.loads` makes of the text `json.dumps` wrote. */
module JsonRoundTrip {
  import opened Texts
  import opened JsonNumber
  import opened Json
  import opened JsonText

  /** The string with every high surrogate that is followed by a low one combined with it. */
  function Combine(s: Text): (r: Text)
    ensures |r| <= |s|
  {
    if s == [] then []
    else if |s| >= 2 && IsHigh(s[0]) && IsLow(s[1]) then [Merge(s[0], s[1])] + Combine(s[2..])
    else [s[0]] + Combine(s[1..])
  }

  /** The value that comes back: strings combined, and keys that then collide stored once. */
  function Joined(v: Value): Value {
    match v
    case Str(s) => Str(Combine(s))
    case Arr(items) => Arr(seq(|items|, i requires 0 <= i < |items| => Joined(items[i])))
    case Obj(fs) => Obj(Dict(seq(|fs|, i requires 0 <= i < |fs| => Field(Combine(fs[i].key), Joined(fs[i].value)))))
    case _ => v
  }

  function JoinedItems(items: seq<Value>): (r: seq<Value>)
    ensures |r| == |items| && forall i :: 0 <= i < |items| ==> r[i] == Joined(items[i])
  {
    seq(|items|, i requires 0 <= i < |items| => Joined(items[i]))
  }

  function JoinedField(f: Field): Field {
    Field(Combine(f.key), Joined(f.value))
  }

  function JoinedFields(fs: seq<Field>): (r: seq<Field>)
    ensures |r| == |fs| && forall i :: 0 <= i < |fs| ==> r[i] == JoinedField(fs[i])
  {
    seq(|fs|, i requires 0 <= i < |fs| => JoinedField(fs[i]))
  }

  lemma JoinedObj(fs: seq<Field>)
    ensures Joined(Obj(fs)) == Obj(Dict(JoinedFields(fs)))
  {
    assert seq(|fs|, i requires 0 <= i < |fs| => Field(Combine(fs[i].key), Joined(fs[i].value))) == JoinedFields(fs);
  }

  lemma JoinedArr(items: seq<Value>)
    ensures Joined(Arr(items)) == Arr(JoinedItems(items))
  {
    assert seq(|items|, i requires 0 <= i < |items| => Joined(items[i])) == JoinedItems(items);
  }

  // ------------------------------------------------------------ strings

  lemma HexDigitRoundTrip(n: int)
    requires 0 <= n < 16
    ensures IsHex(HexDigit(n)) && HexValue(HexDigit(n)) == n
  {
  }

  lemma HexDigits(n: Unit)
    ensures n == n / 0x1000 * 0x1000 + n / 0x100 % 16 * 0x100 + n / 16 % 16 * 16 + n % 16
  {
    assert n == n / 16 * 16 + n % 16;
    assert n / 16 == n / 0x100 * 16 + n / 16 % 16;
    assert n / 0x100 == n / 0x1000 * 16 + n / 0x100 % 16;
  }

  lemma HexRoundTrip(n: Unit, rest: Text)
    ensures ReadHex4(Hex4(n) + rest) == Done(n, rest)
  {
    hide HexDigit, HexValue, IsHex;
    var t := Hex4(n) + rest;
    assert t[4..] == rest;
    HexDigitRoundTrip(n / 0x1000);
    HexDigitRoundTrip(n / 0x100 % 16);
    HexDigitRoundTrip(n / 16 % 16);
    HexDigitRoundTrip(n % 16);
    HexDigits(n);
  }

  lemma UnitAhead(n: Unit, rest: Text)
    ensures LowAhead(EscapeUnit(n) + rest) == if IsLow(n) then Some(n) else None
  {
    HexRoundTrip(n, rest);
    assert (EscapeUnit(n) + rest)[2..] == Hex4(n) + rest;
  }

  lemma UnitParses(n: Unit, rest: Text)
    requires IsHigh(n) ==> LowAhead(rest) == None
    ensures ParseEscape((EscapeUnit(n) + rest)[1..]) == Done(n, rest)
  {
    HexRoundTrip(n, rest);
    assert (EscapeUnit(n) + rest)[1..][1..] == Hex4(n) + rest;
  }

  lemma PairParses(high: Unit, low: Unit, rest: Text)
    requires IsHigh(high) && IsLow(low)
    ensures ParseEscape((EscapeUnit(high) + EscapeUnit(low) + rest)[1..]) == Done(Merge(high, low), rest)
  {
    var after := EscapeUnit(low) + rest;
    var t := EscapeUnit(high) + EscapeUnit(low) + rest;
    HexRoundTrip(high, after);
    assert t[1..][1..] == Hex4(high) + after;
    UnitAhead(low, rest);
    assert after[6..] == rest;
  }

  /** Only a low surrogate at the front of the string puts an escaped one there. */
  lemma CharAhead(c: CodePoint, rest: Text)
    requires !IsLow(c)
    ensures LowAhead(EscapeChar(c) + rest) == None
  {
    if 32 <= c <= 126 || c in {8, 9, 10, 12, 13} {
    } else if c < 0x10000 {
      UnitAhead(c, rest);
    } else {
      var low := EscapeUnit(LowOf(c));
      UnitAhead(HighOf(c), low + rest);
      assert EscapeChar(c) + rest == EscapeUnit(HighOf(c)) + (low + rest);
    }
  }

  lemma EscapeStep(t: Text, c: CodePoint, rest: Text)
    requires t != [] && t[0] == BACKSLASH
    requires ParseEscape(t[1..]) == Done(c, rest) && ParseChars(rest).Done?
    ensures var r := ParseChars(rest); ParseChars(t) == Done([c] + r.value, r.rest)
  {
    hide ParseEscape;
  }

  lemma ShortEscapes(c: CodePoint, rest: Text)
    requires |EscapeChar(c)| == 2
    ensures ParseEscape((EscapeChar(c) + rest)[1..]) == Done(c, rest)
  {
    hide LowAhead, ReadHex4;
    var e := EscapeChar(c);
    assert (e + rest)[1..] == [e[1]] + rest;
    assert ([e[1]] + rest)[1..] == rest;
  }

  lemma CharEscapes(c: CodePoint, rest: Text)
    requires IsHigh(c) ==> LowAhead(rest) == None
    requires EscapeChar(c)[0] == BACKSLASH
    ensures ParseEscape((EscapeChar(c) + rest)[1..]) == Done(c, rest)
  {
    hide LowAhead, ReadHex4, EscapeUnit;
    if |EscapeChar(c)| == 2 {
      ShortEscapes(c, rest);
    } else if c < 0x10000 {
      UnitParses(c, rest);
    } else {
      PairParses(HighOf(c), LowOf(c), rest);
    }
  }

  lemma CharParses(c: CodePoint, rest: Text)
    requires IsHigh(c) ==> LowAhead(rest) == None
    requires ParseChars(rest).Done?
    ensures var r := ParseChars(rest); ParseChars(EscapeChar(c) + rest) == Done([c] + r.value, r.rest)
  {
    hide ParseEscape, LowAhead;
    if EscapeChar(c)[0] == BACKSLASH {
      CharEscapes(c, rest);
      EscapeStep(EscapeChar(c) + rest, c, rest);
    } else {
      assert (EscapeChar(c) + rest)[1..] == rest;
    }
  }

  lemma {:induction false} StringRoundTrip(s: Text, rest: Text)
    ensures ParseChars(EscapeText(s) + [QUOTE] + rest) == Done(Combine(s), rest)
  {
    hide ParseEscape, LowAhead, EscapeChar;
    var close := [QUOTE] + rest;
    if s == [] {
      assert EscapeText(s) + [QUOTE] + rest == close;
      assert close[1..] == rest;
    } else if |s| >= 2 && IsHigh(s[0]) && IsLow(s[1]) {
      StringRoundTrip(s[2..], rest);
      CombinedStep(s, EscapeText(s[2..]) + [QUOTE] + rest, rest);
    } else {
      StringRoundTrip(s[1..], rest);
      PlainStep(s, EscapeText(s[1..]) + [QUOTE] + rest, rest);
    }
  }

  lemma CombinedStep(s: Text, tail: Text, rest: Text)
    requires |s| >= 2 && IsHigh(s[0]) && IsLow(s[1])
    requires tail == EscapeText(s[2..]) + [QUOTE] + rest && ParseChars(tail) == Done(Combine(s[2..]), rest)
    ensures ParseChars(EscapeText(s) + [QUOTE] + rest) == Done(Combine(s), rest)
  {
    hide ParseEscape, LowAhead, ParseChars;
    var t := EscapeUnit(s[0]) + EscapeUnit(s[1]) + tail;
    assert EscapeText(s) + [QUOTE] + rest == t by {
      assert s[1..][1..] == s[2..];
      assert EscapeText(s[1..]) == EscapeUnit(s[1]) + EscapeText(s[2..]);
    }
    PairParses(s[0], s[1], tail);
    EscapeStep(t, Merge(s[0], s[1]), tail);
  }

  lemma PlainStep(s: Text, tail: Text, rest: Text)
    requires s != [] && !(|s| >= 2 && IsHigh(s[0]) && IsLow(s[1]))
    requires tail == EscapeText(s[1..]) + [QUOTE] + rest && ParseChars(tail) == Done(Combine(s[1..]), rest)
    ensures ParseChars(EscapeText(s) + [QUOTE] + rest) == Done(Combine(s), rest)
  {
    hide ParseEscape, ParseChars, EscapeChar;
    assert EscapeText(s) + [QUOTE] + rest == EscapeChar(s[0]) + tail;
    if IsHigh(s[0]) && |s| >= 2 {
      var tail2 := EscapeText(s[1..][1..]) + [QUOTE] + rest;
      CharAhead(s[1], tail2);
      assert tail == EscapeChar(s[1]) + tail2;
    }
    CharParses(s[0], tail);
  }

  // ------------------------------------------------------------ values

  /** What the first character of a printed value can be. */
  predicate StartsValue(c: CodePoint) {
    !IsJsonSpace(c) && c != RBRACKET && c != RBRACE
  }

  lemma PrintStarts(v: Value, gap: Text)
    requires WellFormed(v)
    ensures Print(v, gap) != [] && StartsValue(Print(v, gap)[0])
  {
    match v
    case Float(lexeme) =>
      if LexNumber(lexeme).len != 0 {
        NumberStart(lexeme);
      }
    case _ =>
  }

  lemma {:induction false} SkipGap(gap: Text, rest: Text)
    requires AllJsonSpace(gap)
    requires rest != [] ==> !IsJsonSpace(rest[0])
    ensures SkipSpace(gap + rest) == rest
  {
    if gap == [] {
      assert gap + rest == rest;
    } else {
      assert (gap + rest)[1..] == gap[1..] + rest;
      SkipGap(gap[1..], rest);
    }
  }

  lemma NumberParses(c: Text, rest: Text)
    requires c != [] && LexNumber(c).len == |c| && Ends(rest)
    ensures ParseNumber(c + rest) == Done(if LexNumber(c).integral then Int(IntValue(c)) else Float(c), rest)
  {
    assert c + [] == c;
    NumberCut(c, [], rest);
    assert (c + rest)[..|c|] == c && (c + rest)[|c|..] == rest;
  }

  lemma NumberNotInfinity(c: Text, rest: Text)
    requires c != [] && LexNumber(c).len == |c|
    ensures !(MINUS_INFINITY <= c + rest)
  {
    if |c| == 1 {
      assert c[0] == MINUS ==> IntegerLen(c) == 0;
    } else {
      NumberChars(c);
      assert c[..|c|] == c;
      assert (c + rest)[1] == c[1] && NumberChar(c[1]);
    }
    assert (c + rest)[0] == c[0];
  }

  lemma NumberValueParses(c: Text, rest: Text)
    requires c != [] && LexNumber(c).len == |c| && Ends(rest)
    ensures ParseValue(c + rest) == ParseNumber(c + rest)
  {
    hide ParseNumber, LexNumber;
    NumberStartsAt(c, rest);
    NumberNotInfinity(c, rest);
  }

  lemma NumberStartsAt(c: Text, rest: Text)
    requires c != [] && LexNumber(c).len == |c|
    ensures (c + rest)[0] == MINUS || IsDigit((c + rest)[0])
  {
    NumberStart(c);
    assert (c + rest)[0] == c[0];
  }

  lemma LiteralParses(word: Text, v: Value, rest: Text)
    requires word != []
    ensures ParseLiteral(word + rest, word, v) == Done(v, rest)
  {
    assert (word + rest)[|word|..] == rest;
  }

  lemma ScalarRoundTrip(v: Value, gap: Text, rest: Text)
    requires WellFormed(v) && !v.Arr? && !v.Obj? && Ends(rest)
    ensures ParseValue(Print(v, gap) + rest) == Done(Joined(v), rest)
  {
    hide ParseNumber, LexNumber, IntText;
    match v
    case Null => LiteralParses(NULL, v, rest);
    case Bool(b) => LiteralParses(if b then TRUE else FALSE, v, rest);
    case Int(n) => IntRoundTrip(n, rest);
    case Float(lexeme) => FloatRoundTrip(lexeme, rest);
    case Str(s) => StringValueRoundTrip(s, gap, rest);
  }

  lemma IntRoundTrip(n: int, rest: Text)
    requires Ends(rest)
    ensures ParseValue(IntText(n) + rest) == Done(Int(n), rest)
  {
    hide ParseNumber, LexNumber;
    IntLexes(n);
    NumberParses(IntText(n), rest);
    NumberValueParses(IntText(n), rest);
  }

  lemma StringValueRoundTrip(s: Text, gap: Text, rest: Text)
    ensures ParseValue(Print(Str(s), gap) + rest) == Done(Str(Combine(s)), rest)
  {
    hide ParseChars, EscapeText;
    StringRoundTrip(s, rest);
    assert (Print(Str(s), gap) + rest)[1..] == EscapeText(s) + [QUOTE] + rest;
  }

  lemma FloatRoundTrip(lexeme: Text, rest: Text)
    requires IsFloat(lexeme) && Ends(rest)
    ensures ParseValue(lexeme + rest) == Done(Float(lexeme), rest)
  {
    hide ParseNumber, LexNumber;
    if lexeme == NAN || lexeme == INFINITY || lexeme == MINUS_INFINITY {
      LiteralParses(lexeme, Float(lexeme), rest);
    } else {
      NumberParses(lexeme, rest);
      NumberValueParses(lexeme, rest);
    }
  }

  /** Parsing the print of a value gives it back with its surrogate pairs combined, and
      stops exactly where the print stopped. */
  lemma {:induction false} ValueRoundTrip(v: Value, gap: Text, rest: Text)
    requires WellFormed(v) && AllJsonSpace(gap) && Ends(rest)
    ensures ParseValue(Print(v, gap) + rest) == Done(Joined(v), rest)
    decreases v, 0
  {
    hide ParseValue, Print, Joined;
    match v
    case Arr(items) =>
      if items != [] {
        ItemsRoundTrip(items, gap, rest);
      }
      ArrayStep(items, gap, rest);
    case Obj(fs) =>
      if fs != [] {
        FieldsRoundTrip(fs, gap, rest);
      }
      ObjectStep(fs, gap, rest);
    case _ => ScalarRoundTrip(v, gap, rest);
  }

  lemma ArrayStep(items: seq<Value>, gap: Text, rest: Text)
    requires forall i :: 0 <= i < |items| ==> WellFormed(items[i])
    requires items != [] ==> ParseItems(PrintItems(items, gap) + [RBRACKET] + rest) == Done(JoinedItems(items), rest)
    ensures ParseValue(Print(Arr(items), gap) + rest) == Done(Joined(Arr(items)), rest)
  {
    hide ParseItems, PrintItems, ParseMembers, ParseChars, ParseAtom;
    var body := PrintItems(items, gap) + [RBRACKET] + rest;
    assert (Print(Arr(items), gap) + rest)[1..] == body;
    JoinedArr(items);
    ElementsStep(items, gap, rest);
  }

  lemma ElementsStep(items: seq<Value>, gap: Text, rest: Text)
    requires forall i :: 0 <= i < |items| ==> WellFormed(items[i])
    requires items != [] ==> ParseItems(PrintItems(items, gap) + [RBRACKET] + rest) == Done(JoinedItems(items), rest)
    ensures ParseElements(PrintItems(items, gap) + [RBRACKET] + rest) == Done(JoinedItems(items), rest)
  {
    hide ParseItems, Print, Joined;
    var body := PrintItems(items, gap) + [RBRACKET] + rest;
    if items == [] {
      assert body == [RBRACKET] + rest;
      assert body[1..] == rest;
    } else {
      PrintStarts(items[0], gap);
      ItemsStart(items, gap);
      assert SkipSpace(body) == body;
    }
  }

  lemma ItemsStart(items: seq<Value>, gap: Text)
    requires items != [] && Print(items[0], gap) != []
    ensures PrintItems(items, gap) != [] && PrintItems(items, gap)[0] == Print(items[0], gap)[0]
  {
    hide Print;
  }

  lemma ObjectStep(fs: seq<Field>, gap: Text, rest: Text)
    requires fs != [] ==> ParseFields(PrintFields(fs, gap) + [RBRACE] + rest) == Done(JoinedFields(fs), rest)
    ensures ParseValue(Print(Obj(fs), gap) + rest) == Done(Joined(Obj(fs)), rest)
  {
    hide ParseFields, PrintFields, Joined, Dict;
    var body := PrintFields(fs, gap) + [RBRACE] + rest;
    assert (Print(Obj(fs), gap) + rest)[1..] == body;
    JoinedObj(fs);
    BodyStart(fs, gap);
    if fs == [] {
      assert body[1..] == rest;
      assert JoinedFields(fs) == [];
    } else {
      assert body[0] == QUOTE;
      assert SkipSpace(body) == body;
    }
  }

  lemma BodyStart(fs: seq<Field>, gap: Text)
    ensures if fs == [] then PrintFields(fs, gap) == [] else PrintFields(fs, gap) != [] && PrintFields(fs, gap)[0] == QUOTE
  {
    if fs != [] {
      FieldsStart(fs, gap);
    }
  }

  lemma {:induction false} ItemsRoundTrip(items: seq<Value>, gap: Text, rest: Text)
    requires items != [] && AllJsonSpace(gap)
    requires forall i :: 0 <= i < |items| ==> WellFormed(items[i])
    ensures ParseItems(PrintItems(items, gap) + [RBRACKET] + rest) == Done(JoinedItems(items), rest)
    decreases items
  {
    hide ParseValue, Print, Joined, ParseItems;
    var t := PrintItems(items, gap) + [RBRACKET] + rest;
    var first := Print(items[0], gap);
    if |items| == 1 {
      ValueRoundTrip(items[0], gap, [RBRACKET] + rest);
      assert t == first + ([RBRACKET] + rest);
      ItemsEnd(t, Joined(items[0]), rest);
      assert JoinedItems(items) == [Joined(items[0])];
    } else {
      var more := PrintItems(items[1..], gap) + [RBRACKET] + rest;
      var after := [COMMA] + (gap + more);
      assert t == first + after;
      ValueRoundTrip(items[0], gap, after);
      PrintStarts(items[1], gap);
      ItemsStart(items[1..], gap);
      SkipGap(gap, more);
      ItemsRoundTrip(items[1..], gap, rest);
      ItemsStep(t, after, Joined(items[0]), gap + more, JoinedItems(items[1..]), rest);
      assert JoinedItems(items) == [Joined(items[0])] + JoinedItems(items[1..]);
    }
  }

  lemma ItemsEnd(t: Text, v: Value, rest: Text)
    requires ParseValue(t) == Done(v, [RBRACKET] + rest)
    ensures ParseItems(t) == Done([v], rest)
  {
    hide ParseValue;
    assert ([RBRACKET] + rest)[1..] == rest;
  }

  lemma ItemsStep(t: Text, after: Text, v: Value, more: Text, vs: seq<Value>, rest: Text)
    requires ParseValue(t) == Done(v, after) && after == [COMMA] + more
    requires ParseItems(SkipSpace(more)) == Done(vs, rest)
    ensures ParseItems(t) == Done([v] + vs, rest)
  {
    hide ParseValue;
    assert SkipSpace(after) == after && after[1..] == more;
  }

  lemma {:induction false} FieldRoundTrip(f: Field, gap: Text, rest: Text)
    requires WellFormed(f.value) && AllJsonSpace(gap) && Ends(rest)
    ensures ParseField(PrintField(f, gap) + rest) == Done(JoinedField(f), rest)
    decreases f
  {
    hide ParseValue, Print, Joined, ParseChars, EscapeText, Combine;
    var v := Print(f.value, gap) + rest;
    var after := [COLON] + (gap + v);
    var t := PrintField(f, gap) + rest;
    assert t[1..] == EscapeText(f.key) + [QUOTE] + after;
    StringRoundTrip(f.key, after);
    assert SkipSpace(after) == after && after[1..] == gap + v;
    PrintStarts(f.value, gap);
    SkipGap(gap, v);
    ValueRoundTrip(f.value, gap, rest);
  }

  lemma {:induction false} FieldsRoundTrip(fs: seq<Field>, gap: Text, rest: Text)
    requires fs != [] && AllJsonSpace(gap)
    requires forall i :: 0 <= i < |fs| ==> WellFormed(fs[i].value)
    ensures ParseFields(PrintFields(fs, gap) + [RBRACE] + rest) == Done(JoinedFields(fs), rest)
    decreases fs
  {
    hide ParseField, PrintField, JoinedField;
    var t := PrintFields(fs, gap) + [RBRACE] + rest;
    var first := PrintField(fs[0], gap);
    if |fs| == 1 {
      FieldRoundTrip(fs[0], gap, [RBRACE] + rest);
      assert t == first + ([RBRACE] + rest);
      assert ([RBRACE] + rest)[1..] == rest;
      assert JoinedFields(fs) == [JoinedField(fs[0])];
    } else {
      var more := PrintFields(fs[1..], gap) + [RBRACE] + rest;
      var after := [COMMA] + (gap + more);
      assert t == first + after;
      FieldRoundTrip(fs[0], gap, after);
      FieldsStart(fs[1..], gap);
      SkipGap(gap, more);
      FieldsRoundTrip(fs[1..], gap, rest);
      FieldsStep(t, after, JoinedField(fs[0]), gap + more, JoinedFields(fs[1..]), rest);
      assert JoinedFields(fs) == [JoinedField(fs[0])] + JoinedFields(fs[1..]);
    }
  }

  lemma FieldsStart(fs: seq<Field>, gap: Text)
    requires fs != []
    ensures PrintFields(fs, gap) != [] && PrintFields(fs, gap)[0] == QUOTE
  {
    hide Print, EscapeText;
  }

  lemma FieldsStep(t: Text, after: Text, f: Field, more: Text, fs: seq<Field>, rest: Text)
    requires ParseField(t) == Done(f, after) && after == [COMMA] + more
    requires ParseFields(SkipSpace(more)) == Done(fs, rest)
    ensures ParseFields(t) == Done([f] + fs, rest)
  {
    hide ParseField;
    assert SkipSpace(after) == after && after[1..] == more;
  }
}
