/** UTF-8 (`str.encode("utf-8")`), which refuses surrogates, and that it loses nothing. */
module Utf8 {
  import opened Texts
  import opened Bytes

  predicate IsSurrogate(c: CodePoint) {
    0xD800 <= c <= 0xDFFF
  }

  function EncodeChar(c: CodePoint): (b: Bytes)
    ensures 1 <= |b| <= 4
  {
    var n: int := c;
    if n < 0x80 then [n]
    else if n < 0x800 then [0xC0 + n / 0x40, 0x80 + n % 0x40]
    else if n < 0x10000 then [0xE0 + n / 0x1000, 0x80 + n / 0x40 % 0x40, 0x80 + n % 0x40]
    else [0xF0 + n / 0x40000, 0x80 + n / 0x1000 % 0x40, 0x80 + n / 0x40 % 0x40, 0x80 + n % 0x40]
  }

  /** `None` is the raised `UnicodeEncodeError`. */
  function Encode(t: Text): Option<Bytes> {
    if t == [] then Some([])
    else if IsSurrogate(t[0]) then None
    else
      match Encode(t[1..])
      case Some(rest) => Some(EncodeChar(t[0]) + rest)
      case None => None
  }

  lemma LeadLength(c: CodePoint)
    ensures var lead := EncodeChar(c)[0];
      |EncodeChar(c)| == if lead < 0x80 then 1 else if lead < 0xE0 then 2 else if lead < 0xF0 then 3 else 4
  {
  }

  /** The code point a sequence of that length stands for. */
  function CharOf(b: Bytes): int
    requires 1 <= |b| <= 4
  {
    var n := seq(|b|, i requires 0 <= i < |b| => b[i] as int);
    if |b| == 1 then n[0]
    else if |b| == 2 then (n[0] - 0xC0) * 0x40 + (n[1] - 0x80)
    else if |b| == 3 then (n[0] - 0xE0) * 0x1000 + (n[1] - 0x80) * 0x40 + (n[2] - 0x80)
    else (n[0] - 0xF0) * 0x40000 + (n[1] - 0x80) * 0x1000 + (n[2] - 0x80) * 0x40 + (n[3] - 0x80)
  }

  lemma CharRoundTrip(c: CodePoint)
    ensures CharOf(EncodeChar(c)) == c
  {
    var n: int := c;
    if n >= 0x10000 {
      assert n == n / 0x40000 * 0x40000 + n / 0x1000 % 0x40 * 0x1000 + n / 0x40 % 0x40 * 0x40 + n % 0x40;
    } else if n >= 0x800 {
      assert n == n / 0x1000 * 0x1000 + n / 0x40 % 0x40 * 0x40 + n % 0x40;
    }
  }

  lemma {:induction false} EncodeInjective(a: Text, b: Text)
    requires Encode(a).Some? && Encode(a) == Encode(b)
    ensures a == b
  {
    hide EncodeChar, CharOf;
    if a != [] && b != [] {
      var x, y := EncodeChar(a[0]), EncodeChar(b[0]);
      var xs, ys := Encode(a[1..]).value, Encode(b[1..]).value;
      LeadLength(a[0]);
      LeadLength(b[0]);
      assert (x + xs)[0] == x[0] && (y + ys)[0] == y[0];
      assert x == (x + xs)[..|x|] && y == (y + ys)[..|y|];
      assert xs == (x + xs)[|x|..] && ys == (y + ys)[|y|..];
      CharRoundTrip(a[0]);
      CharRoundTrip(b[0]);
      EncodeInjective(a[1..], b[1..]);
      assert a == [a[0]] + a[1..] && b == [b[0]] + b[1..];
    }
  }

  predicate Ascii(t: Text) {
    forall i :: 0 <= i < |t| ==> t[i] < 0x80
  }

  /** The encoding is never shorter than the text, and as long exactly for ASCII. */
  lemma {:induction false} EncodedLength(t: Text)
    requires Encode(t).Some?
    ensures |Encode(t).value| >= |t|
    ensures |Encode(t).value| == |t| <==> Ascii(t)
  {
    if t != [] {
      EncodedLength(t[1..]);
      assert t == [t[0]] + t[1..];
    }
  }

  lemma {:induction false} EncodeConcat(a: Text, b: Text)
    requires Encode(a).Some? && Encode(b).Some?
    ensures Encode(a + b) == Some(Encode(a).value + Encode(b).value)
  {
    hide EncodeChar;
    if a == [] {
      assert a + b == b && Encode(a).value + Encode(b).value == Encode(b).value;
    } else {
      assert (a + b)[1..] == a[1..] + b;
      EncodeConcat(a[1..], b);
      var head, rest, more := EncodeChar(a[0]), Encode(a[1..]).value, Encode(b).value;
      assert head + (rest + more) == (head + rest) + more;
    }
  }

  lemma {:induction false} AsciiEncodes(t: Text)
    requires Ascii(t)
    ensures Encode(t).Some?
  {
    if t != [] {
      AsciiEncodes(t[1..]);
    }
  }
}
