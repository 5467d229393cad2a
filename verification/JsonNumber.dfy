/** The number grammar of RFC 8259 section 6, as the standard library's scanner reads it:
    the longest token that is a number, and nothing if there is none. */
module JsonNumber {
  import opened Texts

  const MINUS: CodePoint := 45
  const PLUS: CodePoint := 43
  const DOT: CodePoint := 46
  const ZERO: CodePoint := 48

  predicate IsDigit(c: CodePoint) {
    48 <= c <= 57
  }

  function Digit(c: CodePoint): nat
    requires IsDigit(c)
  {
    c as int - 48
  }

  function DigitsLen(t: Text): (n: nat)
    ensures n <= |t|
    ensures forall i :: 0 <= i < n ==> IsDigit(t[i])
    ensures n < |t| ==> !IsDigit(t[n])
  {
    if t != [] && IsDigit(t[0]) then 1 + DigitsLen(t[1..]) else 0
  }

  /** Length of the optional sign and the integer part; 0 when there is no number here. */
  function IntegerLen(t: Text): (n: nat)
    ensures n <= |t|
  {
    var sign := if t != [] && t[0] == MINUS then 1 else 0;
    if sign == |t| || !IsDigit(t[sign]) then 0
    else if t[sign] == ZERO then sign + 1
    else sign + DigitsLen(t[sign..])
  }

  function FractionLen(t: Text): (n: nat)
    ensures n <= |t|
  {
    if |t| >= 2 && t[0] == DOT && IsDigit(t[1]) then 1 + DigitsLen(t[1..]) else 0
  }

  function ExponentLen(t: Text): (n: nat)
    ensures n <= |t|
  {
    if t == [] || (t[0] != 101 && t[0] != 69) then 0
    else
      var sign := if |t| > 1 && (t[1] == PLUS || t[1] == MINUS) then 2 else 1;
      if sign == |t| || !IsDigit(t[sign]) then 0 else sign + DigitsLen(t[sign..])
  }

  /** What a token may carry after its integer part. */
  function TailLen(t: Text): (n: nat)
    ensures n <= |t|
  {
    FractionLen(t) + ExponentLen(t[FractionLen(t)..])
  }

  /** `len` is 0 when no number starts here; `integral` when there is no fraction or exponent. */
  datatype Token = Token(len: nat, integral: bool)

  function LexNumber(t: Text): (k: Token)
    ensures k.len <= |t|
  {
    var whole := IntegerLen(t);
    if whole == 0 then Token(0, true)
    else
      var tail := TailLen(t[whole..]);
      Token(whole + tail, tail == 0)
  }

  /** What may follow a number token without becoming part of it. */
  predicate Ends(t: Text) {
    t == [] || !(IsDigit(t[0]) || t[0] == DOT || t[0] == 101 || t[0] == 69)
  }

  lemma {:induction false} DigitsAre(t: Text, n: nat)
    requires n <= |t|
    requires forall i :: 0 <= i < n ==> IsDigit(t[i])
    requires n < |t| ==> !IsDigit(t[n])
    ensures DigitsLen(t) == n
  {
    if n > 0 {
      DigitsAre(t[1..], n - 1);
    }
  }

  lemma DigitsCut(c: Text, y: Text, z: Text)
    requires DigitsLen(c + y) <= |c| && Ends(z)
    ensures DigitsLen(c + z) == DigitsLen(c + y)
  {
    var n := DigitsLen(c + y);
    assert forall i :: 0 <= i < n ==> (c + z)[i] == (c + y)[i];
    if n < |c| {
      assert (c + z)[n] == (c + y)[n];
    }
    DigitsAre(c + z, n);
  }

  lemma IntegerCut(c: Text, y: Text, z: Text)
    requires 0 < IntegerLen(c + y) <= |c| && Ends(z)
    ensures IntegerLen(c + z) == IntegerLen(c + y)
  {
    var sign := if (c + y)[0] == MINUS then 1 else 0;
    assert (c + y)[sign..] == c[sign..] + y && (c + z)[sign..] == c[sign..] + z;
    if (c + y)[sign] != ZERO {
      DigitsCut(c[sign..], y, z);
    }
  }

  lemma FractionCut(c: Text, y: Text, z: Text)
    requires FractionLen(c + y) <= |c| && Ends(z)
    requires FractionLen(c + y) == 0 ==> c == [] || c[0] == 101 || c[0] == 69
    ensures FractionLen(c + z) == FractionLen(c + y)
  {
    if FractionLen(c + y) != 0 {
      assert (c + y)[1..] == c[1..] + y && (c + z)[1..] == c[1..] + z;
      DigitsCut(c[1..], y, z);
    }
  }

  lemma ExponentCut(c: Text, y: Text, z: Text)
    requires ExponentLen(c + y) == |c| && Ends(z)
    ensures ExponentLen(c + z) == |c|
  {
    if c != [] {
      var sign := if |c + y| > 1 && ((c + y)[1] == PLUS || (c + y)[1] == MINUS) then 2 else 1;
      assert (c + y)[sign..] == c[sign..] + y && (c + z)[sign..] == c[sign..] + z;
      DigitsCut(c[sign..], y, z);
    }
  }

  lemma TailCut(c: Text, y: Text, z: Text)
    requires TailLen(c + y) == |c| && Ends(z)
    ensures TailLen(c + z) == |c|
  {
    var frac := FractionLen(c + y);
    var rest := c[frac..];
    assert (c + y)[frac..] == rest + y && (c + z)[frac..] == rest + z;
    ExponentCut(rest, y, z);
    FractionCut(c, y, z);
  }

  /** A number token does not depend on what ended it. */
  lemma NumberCut(c: Text, y: Text, z: Text)
    requires c != [] && LexNumber(c + y).len == |c| && Ends(z)
    ensures LexNumber(c + z) == LexNumber(c + y)
  {
    hide IntegerLen, TailLen, DigitsLen;
    IntegerCut(c, y, z);
    var whole := IntegerLen(c + y);
    var rest := c[whole..];
    assert (c + y)[whole..] == rest + y && (c + z)[whole..] == rest + z;
    TailCut(rest, y, z);
  }

  // ------------------------------------------------------------ integers

  function NatText(n: nat): (t: Text)
    ensures t != [] && forall i :: 0 <= i < |t| ==> IsDigit(t[i])
    ensures n > 0 ==> t[0] != ZERO
  {
    if n < 10 then [48 + n] else NatText(n / 10) + [48 + n % 10]
  }

  function IntText(n: int): Text {
    if n < 0 then [MINUS] + NatText(-n) else NatText(n)
  }

  function NatValue(t: Text): nat
    requires forall i :: 0 <= i < |t| ==> IsDigit(t[i])
  {
    if t == [] then 0 else NatValue(t[..|t| - 1]) * 10 + Digit(t[|t| - 1])
  }

  lemma {:induction false} NatRoundTrip(n: nat)
    ensures NatValue(NatText(n)) == n
  {
    var t := NatText(n);
    if n >= 10 {
      NatRoundTrip(n / 10);
      assert t[..|t| - 1] == NatText(n / 10);
    } else {
      assert t[..0] == [];
      assert NatValue([]) == 0;
    }
  }

  /** The integer an integral token denotes. */
  function IntValue(t: Text): int
    requires t != [] && LexNumber(t) == Token(|t|, true)
  {
    var magnitude: int := NatValue(IntegerDigits(t));
    if t[0] == MINUS then -magnitude else magnitude
  }

  function IntegerDigits(t: Text): (d: Text)
    requires t != [] && LexNumber(t) == Token(|t|, true)
    ensures forall i :: 0 <= i < |d| ==> IsDigit(d[i])
  {
    if t[0] == MINUS then t[1..] else t
  }

  lemma IntLexes(n: int)
    ensures LexNumber(IntText(n)) == Token(|IntText(n)|, true)
    ensures IntValue(IntText(n)) == n
  {
    var t := IntText(n);
    var d := NatText(if n < 0 then -n else n);
    assert t == if n < 0 then [MINUS] + d else d;
    var sign := if n < 0 then 1 else 0;
    assert t[sign..] == d;
    DigitsAre(d, |d|);
    if n == 0 {
      assert IntegerLen(t) == 1 == |t|;
    } else {
      assert IntegerLen(t) == |t|;
    }
    assert t[|t|..] == [];
    NatRoundTrip(if n < 0 then -n else n);
  }

  // ------------------------------------------------------------ decimals

  /** Plus or minus `digits` times ten to the power `scale`. */
  datatype Decimal = Decimal(negative: bool, digits: nat, scale: int)

  function Leading(t: Text): (d: Text)
    ensures d <= t && forall i :: 0 <= i < |d| ==> IsDigit(d[i])
  {
    t[..DigitsLen(t)]
  }

  /** What the exponent at the front of a text says; 0 when there is none. */
  function ExponentOf(t: Text): int {
    if t == [] || (t[0] != 101 && t[0] != 69) then 0
    else
      var negative := |t| > 1 && t[1] == MINUS;
      var signed := negative || (|t| > 1 && t[1] == PLUS);
      var n: int := NatValue(Leading(t[if signed then 2 else 1..]));
      if negative then -n else n
  }

  /** The decimal number a token denotes. */
  function DecimalOf(t: Text): Decimal {
    var negative := t != [] && t[0] == MINUS;
    var u := if negative then t[1..] else t;
    var whole := Leading(u);
    var rest := u[|whole|..];
    if rest != [] && rest[0] == DOT then
      var part := Leading(rest[1..]);
      Decimal(negative, NatValue(whole + part), ExponentOf(rest[1 + |part|..]) - |part|)
    else Decimal(negative, NatValue(whole), ExponentOf(rest))
  }

  function Pow10(n: nat): nat {
    if n == 0 then 1 else 10 * Pow10(n - 1)
  }

  predicate Above(n: nat, d: Decimal) {
    if d.negative then n > 0 || d.digits > 0
    else if d.scale >= 0 then n > d.digits * Pow10(d.scale)
    else n * Pow10(-d.scale) > d.digits
  }

  predicate AreDigits(t: Text) {
    forall i :: 0 <= i < |t| ==> IsDigit(t[i])
  }

  lemma {:induction false} DigitsConcat(w: Text, f: Text)
    requires AreDigits(w) && AreDigits(f)
    ensures AreDigits(w + f)
    ensures NatValue(w + f) == NatValue(w) * Pow10(|f|) + NatValue(f) && NatValue(f) < Pow10(|f|)
    decreases |f|
  {
    hide IsDigit;
    if f == [] {
      assert w + f == w;
    } else {
      var front, last := f[..|f| - 1], f[|f| - 1];
      DigitsConcat(w, front);
      assert (w + f)[..|w + f| - 1] == w + front && (w + f)[|w + f| - 1] == last;
      DigitSmall(last);
      hide NatValue;
      LastDigit(w + f);
      LastDigit(f);
      Carry(NatValue(w), Pow10(|front|), NatValue(front), Digit(last));
    }
  }

  lemma DigitSmall(c: CodePoint)
    requires IsDigit(c)
    ensures Digit(c) < 10
  {
  }

  lemma LastDigit(t: Text)
    requires AreDigits(t) && t != []
    ensures NatValue(t) == NatValue(t[..|t| - 1]) * 10 + Digit(t[|t| - 1])
  {
  }

  lemma Carry(w: nat, scale: nat, f: nat, d: nat)
    requires f < scale && d < 10
    ensures (w * scale + f) * 10 + d == w * (10 * scale) + (f * 10 + d) && f * 10 + d < 10 * scale
  {
  }

  /** A number with a fraction is exceeded by the whole numbers above its whole part. */
  lemma {:induction false} FractionAbove(n: nat, w: Text, f: Text)
    requires w != [] && AreDigits(w) && AreDigits(f)
    ensures Above(n, DecimalOf(w + ([DOT] + f))) <==> n > NatValue(w)
  {
    hide NatValue;
    var t := w + ([DOT] + f);
    assert t[0] == w[0];
    DigitsAre(t, |w|);
    DigitsAre(f, |f|);
    assert t[..|w|] == w && t[|w|..] == [DOT] + f && ([DOT] + f)[1..] == f && f[..|f|] == f;
    assert ([DOT] + f)[1 + |f|..] == [];
    DigitsConcat(w, f);
    assert DecimalOf(t) == Decimal(false, NatValue(w + f), -|f|);
    Scaled(n, NatValue(w), NatValue(f), Pow10(|f|));
    assert f == [] ==> Pow10(|f|) == 1;
  }

  /** A number with an exponent is so many times ten, or a part of it. */
  lemma {:induction false} ExponentAbove(n: nat, w: Text, f: Text)
    requires w != [] && AreDigits(w) && f != [] && AreDigits(f)
    ensures Above(n, DecimalOf(w + ([101] + f))) <==> n > NatValue(w) * Pow10(NatValue(f))
    ensures Above(n, DecimalOf(w + ([101] + ([MINUS] + f)))) <==> n * Pow10(NatValue(f)) > NatValue(w)
  {
    hide NatValue, DecimalOf, ExponentOf;
    ExponentIs(w, [101] + f);
    ExponentIs(w, [101] + ([MINUS] + f));
    ExponentReads(f);
    assert NatValue(f) == 0 ==> Pow10(NatValue(f)) == 1;
  }

  lemma ExponentReads(f: Text)
    requires f != [] && AreDigits(f)
    ensures ExponentOf([101] + f) == NatValue(f)
    ensures ExponentOf([101] + ([MINUS] + f)) == 0 - NatValue(f)
  {
    hide NatValue;
    DigitsAre(f, |f|);
    assert f[..|f|] == f && f[0] != MINUS && f[0] != PLUS;
    assert ([101] + f)[1..] == f && ([101] + ([MINUS] + f))[2..] == f;
  }

  lemma ExponentIs(w: Text, e: Text)
    requires w != [] && AreDigits(w) && e != [] && e[0] == 101
    ensures DecimalOf(w + e) == Decimal(false, NatValue(w), ExponentOf(e))
  {
    hide NatValue, ExponentOf;
    var t := w + e;
    assert t[0] == w[0];
    DigitsAre(t, |w|);
    assert t[..|w|] == w && t[|w|..] == e;
  }

  lemma Scaled(n: nat, w: nat, f: nat, scale: nat)
    requires f < scale
    ensures n * scale > w * scale + f <==> n > w
  {
    if n > w {
      assert n * scale >= (w + 1) * scale == w * scale + scale;
    } else {
      assert n * scale <= w * scale;
    }
  }

  /** Every character of a number token is printable ASCII and none is a quote or brace. */
  predicate NumberChar(c: CodePoint) {
    IsDigit(c) || c == PLUS || c == MINUS || c == DOT || c == 101 || c == 69
  }

  predicate AllNumberChars(t: Text) {
    forall i :: 0 <= i < |t| ==> NumberChar(t[i])
  }

  lemma DigitChars(t: Text, n: nat)
    requires n <= DigitsLen(t)
    ensures AllNumberChars(t[..n])
  {
  }

  lemma IntegerChars(t: Text)
    ensures AllNumberChars(t[..IntegerLen(t)])
  {
    if IntegerLen(t) != 0 {
      var sign := if t[0] == MINUS then 1 else 0;
      var n := IntegerLen(t) - sign;
      DigitChars(t[sign..], n);
      assert t[..sign + n] == t[..sign] + t[sign..][..n];
    }
  }

  lemma FractionChars(t: Text)
    ensures AllNumberChars(t[..FractionLen(t)])
  {
    if FractionLen(t) != 0 {
      var n := FractionLen(t) - 1;
      DigitChars(t[1..], n);
      assert t[..1 + n] == t[..1] + t[1..][..n];
    }
  }

  lemma ExponentChars(t: Text)
    ensures AllNumberChars(t[..ExponentLen(t)])
  {
    if ExponentLen(t) != 0 {
      var sign := if |t| > 1 && (t[1] == PLUS || t[1] == MINUS) then 2 else 1;
      var n := ExponentLen(t) - sign;
      DigitChars(t[sign..], n);
      assert t[..sign + n] == t[..sign] + t[sign..][..n];
    }
  }

  lemma TailChars(t: Text)
    ensures AllNumberChars(t[..TailLen(t)])
  {
    var frac := FractionLen(t);
    FractionChars(t);
    ExponentChars(t[frac..]);
    assert t[..TailLen(t)] == t[..frac] + t[frac..][..ExponentLen(t[frac..])];
  }

  lemma NumberChars(t: Text)
    ensures AllNumberChars(t[..LexNumber(t).len])
  {
    hide IntegerLen, TailLen, NumberChar;
    var whole := IntegerLen(t);
    if whole != 0 {
      IntegerChars(t);
      TailChars(t[whole..]);
      assert t[..LexNumber(t).len] == t[..whole] + t[whole..][..TailLen(t[whole..])];
    }
  }

  lemma NumberStart(t: Text)
    requires LexNumber(t).len > 0
    ensures t[0] == MINUS || IsDigit(t[0])
  {
  }
}
