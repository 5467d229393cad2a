/** JSON text in both directions: `json.dumps` (ASCII escaping, `sort_keys`, and a gap of
    JSON white space after each comma and colon) and the strict `json.loads`. */
module JsonText {
  import opened Texts
  import opened JsonNumber
  import opened Json

  const QUOTE: CodePoint := 34
  const BACKSLASH: CodePoint := 92
  const COMMA: CodePoint := 44
  const COLON: CodePoint := 58
  const LBRACKET: CodePoint := 91
  const RBRACKET: CodePoint := 93
  const LBRACE: CodePoint := 123
  const RBRACE: CodePoint := 125
  const LETTER_U: CodePoint := 117
  const NULL: Text := [110, 117, 108, 108]
  const TRUE: Text := [116, 114, 117, 101]
  const FALSE: Text := [102, 97, 108, 115, 101]

  // ------------------------------------------------------------ escapes

  type Unit = n: int | 0 <= n < 0x10000

  function HexDigit(n: int): CodePoint
    requires 0 <= n < 16
  {
    if n < 10 then 48 + n else 87 + n
  }

  function Hex4(n: Unit): Text {
    [HexDigit(n / 0x1000), HexDigit(n / 0x100 % 16), HexDigit(n / 16 % 16), HexDigit(n % 16)]
  }

  predicate IsHex(c: CodePoint) {
    48 <= c <= 57 || 65 <= c <= 70 || 97 <= c <= 102
  }

  function HexValue(c: CodePoint): (n: int)
    requires IsHex(c)
    ensures 0 <= n < 16
  {
    if c <= 57 then c as int - 48 else if c <= 70 then c as int - 55 else c as int - 87
  }

  function EscapeUnit(n: Unit): Text {
    [BACKSLASH, LETTER_U] + Hex4(n)
  }

  function HighOf(c: CodePoint): Unit
    requires c >= 0x10000
  {
    0xD800 + (c as int - 0x10000) / 0x400
  }

  function LowOf(c: CodePoint): Unit
    requires c >= 0x10000
  {
    0xDC00 + (c as int - 0x10000) % 0x400
  }

  /** The code point a surrogate pair stands for. */
  function Merge(high: CodePoint, low: CodePoint): CodePoint
    requires IsHigh(high) && IsLow(low)
  {
    0x10000 + (high as int - 0xD800) * 0x400 + (low as int - 0xDC00)
  }

  function EscapeChar(c: CodePoint): Text {
    if c == QUOTE || c == BACKSLASH then [BACKSLASH, c]
    else if c == 8 then [BACKSLASH, 98]
    else if c == 9 then [BACKSLASH, 116]
    else if c == 10 then [BACKSLASH, 110]
    else if c == 12 then [BACKSLASH, 102]
    else if c == 13 then [BACKSLASH, 114]
    else if 32 <= c <= 126 then [c]
    else if c < 0x10000 then EscapeUnit(c)
    else EscapeUnit(HighOf(c)) + EscapeUnit(LowOf(c))
  }

  function EscapeText(s: Text): Text {
    if s == [] then [] else EscapeChar(s[0]) + EscapeText(s[1..])
  }

  // ------------------------------------------------------------ printing

  function PrintString(s: Text): Text {
    [QUOTE] + EscapeText(s) + [QUOTE]
  }

  function Print(v: Value, gap: Text): Text {
    match v
    case Null => NULL
    case Bool(b) => if b then TRUE else FALSE
    case Int(n) => IntText(n)
    case Float(lexeme) => lexeme
    case Str(s) => PrintString(s)
    case Arr(items) => [LBRACKET] + PrintItems(items, gap) + [RBRACKET]
    case Obj(fs) => [LBRACE] + PrintFields(fs, gap) + [RBRACE]
  }

  function PrintItems(items: seq<Value>, gap: Text): Text {
    if items == [] then []
    else if |items| == 1 then Print(items[0], gap)
    else Print(items[0], gap) + [COMMA] + gap + PrintItems(items[1..], gap)
  }

  function PrintField(f: Field, gap: Text): Text {
    PrintString(f.key) + [COLON] + gap + Print(f.value, gap)
  }

  function PrintFields(fs: seq<Field>, gap: Text): Text {
    if fs == [] then []
    else if |fs| == 1 then PrintField(fs[0], gap)
    else PrintField(fs[0], gap) + [COMMA] + gap + PrintFields(fs[1..], gap)
  }

  /** `json.dumps(v, sort_keys=True)`; the gap is empty with `separators=(",", ":")` and
      one space by default. */
  function Dumps(v: Value, gap: Text): Text {
    Print(Sorted(v), gap)
  }

  // ------------------------------------------------------------ parsing

  datatype Parse<+T> = Fail | Done(value: T, rest: Text) {
    predicate IsFailure() { Fail? }
    function PropagateFailure<U>(): Parse<U> requires Fail? { Fail }
    function Extract(): (T, Text) requires Done? { (value, rest) }
  }

  predicate IsJsonSpace(c: CodePoint) {
    c == 32 || c == 9 || c == 10 || c == 13
  }

  predicate AllJsonSpace(t: Text) {
    forall i :: 0 <= i < |t| ==> IsJsonSpace(t[i])
  }

  function SkipSpace(t: Text): (r: Text)
    ensures |r| <= |t|
  {
    if t != [] && IsJsonSpace(t[0]) then SkipSpace(t[1..]) else t
  }

  function ReadHex4(t: Text): (r: Parse<Unit>)
    ensures r.Done? ==> |t| >= 4 && r.rest == t[4..]
  {
    if |t| >= 4 && IsHex(t[0]) && IsHex(t[1]) && IsHex(t[2]) && IsHex(t[3]) then
      Done(HexValue(t[0]) * 0x1000 + HexValue(t[1]) * 0x100 + HexValue(t[2]) * 16 + HexValue(t[3]), t[4..])
    else Fail
  }

  /** The low surrogate escaped at the front of the text, if there is one. */
  function LowAhead(t: Text): (r: Option<Unit>)
    ensures r.Some? ==> IsLow(r.value) && |t| >= 6
  {
    if |t| >= 2 && t[0] == BACKSLASH && t[1] == LETTER_U then
      match ReadHex4(t[2..])
      case Done(n, _) => if IsLow(n) then Some(n) else None
      case Fail => None
    else None
  }

  /** What follows a backslash. */
  function ParseEscape(t: Text): (r: Parse<CodePoint>)
    ensures r.Done? ==> |r.rest| < |t|
  {
    if t == [] then Fail
    else if t[0] == QUOTE || t[0] == BACKSLASH || t[0] == 47 then Done(t[0], t[1..])
    else if t[0] == 98 then Done(8, t[1..])
    else if t[0] == 116 then Done(9, t[1..])
    else if t[0] == 110 then Done(10, t[1..])
    else if t[0] == 102 then Done(12, t[1..])
    else if t[0] == 114 then Done(13, t[1..])
    else if t[0] == LETTER_U then
      var (n, rest) :- ReadHex4(t[1..]);
      var low := LowAhead(rest);
      if IsHigh(n) && low.Some? then Done(Merge(n, low.value), rest[6..]) else Done(n, rest)
    else Fail
  }

  /** The characters of a string, from just after its opening quote. */
  function ParseChars(t: Text): (r: Parse<Text>)
    ensures r.Done? ==> |r.rest| < |t|
    decreases |t|
  {
    if t == [] then Fail
    else if t[0] == QUOTE then Done([], t[1..])
    else if t[0] == BACKSLASH then
      var (c, rest) :- ParseEscape(t[1..]);
      var (s, rest) :- ParseChars(rest);
      Done([c] + s, rest)
    else if t[0] < 32 then Fail
    else
      var (s, rest) :- ParseChars(t[1..]);
      Done([t[0]] + s, rest)
  }

  /** The token at the front of a text is a token by itself. */
  lemma NumberAlone(t: Text)
    requires LexNumber(t).len > 0
    ensures LexNumber(t[..LexNumber(t).len]) == LexNumber(t)
  {
    hide LexNumber;
    var k := LexNumber(t);
    var c := t[..k.len];
    assert c + t[k.len..] == t;
    NumberCut(c, t[k.len..], []);
    assert c + [] == c;
  }

  function ParseNumber(t: Text): (r: Parse<Value>)
    ensures r.Done? ==> |r.rest| < |t|
  {
    var k := LexNumber(t);
    if k.len == 0 then Fail
    else
      var c := t[..k.len];
      NumberAlone(t);
      Done(if k.integral then Int(IntValue(c)) else Float(c), t[k.len..])
  }

  function ParseLiteral(t: Text, word: Text, v: Value): (r: Parse<Value>)
    requires word != []
    ensures r.Done? ==> |r.rest| < |t|
  {
    if word <= t then Done(v, t[|word|..]) else Fail
  }

  /** The literals, with the three that RFC 8259 does not have but Python reads, and numbers. */
  function ParseAtom(t: Text): (r: Parse<Value>)
    requires t != []
    ensures r.Done? ==> |r.rest| < |t|
  {
    if t[0] == NULL[0] then ParseLiteral(t, NULL, Null)
    else if t[0] == TRUE[0] then ParseLiteral(t, TRUE, Bool(true))
    else if t[0] == FALSE[0] then ParseLiteral(t, FALSE, Bool(false))
    else if t[0] == NAN[0] then ParseLiteral(t, NAN, Float(NAN))
    else if t[0] == INFINITY[0] then ParseLiteral(t, INFINITY, Float(INFINITY))
    else if MINUS_INFINITY <= t then ParseLiteral(t, MINUS_INFINITY, Float(MINUS_INFINITY))
    else ParseNumber(t)
  }

  function ParseValue(t: Text): (r: Parse<Value>)
    ensures r.Done? ==> |r.rest| < |t|
    decreases |t|, 1
  {
    if t == [] then Fail
    else if t[0] == QUOTE then
      var (s, rest) :- ParseChars(t[1..]);
      Done(Str(s), rest)
    else if t[0] == LBRACE then
      var (fs, rest) :- ParseMembers(t[1..]);
      Done(Obj(Dict(fs)), rest)
    else if t[0] == LBRACKET then
      var (items, rest) :- ParseElements(t[1..]);
      Done(Arr(items), rest)
    else ParseAtom(t)
  }

  /** An array from just after its opening bracket. */
  function ParseElements(t: Text): (r: Parse<seq<Value>>)
    ensures r.Done? ==> |r.rest| < |t|
    decreases |t|, 3
  {
    var u := SkipSpace(t);
    if u != [] && u[0] == RBRACKET then Done([], u[1..]) else ParseItems(u)
  }

  function ParseItems(t: Text): (r: Parse<seq<Value>>)
    ensures r.Done? ==> |r.rest| < |t| && r.value != []
    decreases |t|, 2
  {
    var (v, rest) :- ParseValue(t);
    var u := SkipSpace(rest);
    if u == [] then Fail
    else if u[0] == RBRACKET then Done([v], u[1..])
    else if u[0] == COMMA then
      var (vs, rest) :- ParseItems(SkipSpace(u[1..]));
      Done([v] + vs, rest)
    else Fail
  }

  /** An object from just after its opening brace. */
  function ParseMembers(t: Text): (r: Parse<seq<Field>>)
    ensures r.Done? ==> |r.rest| < |t|
    decreases |t|, 3
  {
    var u := SkipSpace(t);
    if u != [] && u[0] == RBRACE then Done([], u[1..]) else ParseFields(u)
  }

  function ParseFields(t: Text): (r: Parse<seq<Field>>)
    ensures r.Done? ==> |r.rest| < |t| && r.value != []
    decreases |t|, 2
  {
    var (f, rest) :- ParseField(t);
    var u := SkipSpace(rest);
    if u == [] then Fail
    else if u[0] == RBRACE then Done([f], u[1..])
    else if u[0] == COMMA then
      var (fs, rest) :- ParseFields(SkipSpace(u[1..]));
      Done([f] + fs, rest)
    else Fail
  }

  function ParseField(t: Text): (r: Parse<Field>)
    ensures r.Done? ==> |r.rest| < |t|
    decreases |t|, 1
  {
    if t == [] || t[0] != QUOTE then Fail
    else
      var (key, rest) :- ParseChars(t[1..]);
      var u := SkipSpace(rest);
      if u == [] || u[0] != COLON then Fail
      else
        var (v, rest) :- ParseValue(SkipSpace(u[1..]));
        Done(Field(key, v), rest)
  }

  /** `json.loads(t)`; `None` where it raises `ValueError`. */
  function Loads(t: Text): Option<Value> {
    match ParseValue(SkipSpace(t))
    case Done(v, rest) => if SkipSpace(rest) == [] then Some(v) else None
    case Fail => None
  }
}
