/** Text as the appliance's Python programs see it: sequences of code points, lone
    surrogates included, with the white-space rules of `str.strip` and `str.split`. */
module Texts {

  type CodePoint = c: int | 0 <= c < 0x110000

  type Text = seq<CodePoint>

  datatype Option<+T> = None | Some(value: T)

  datatype Result<+T, +E> = Ok(value: T) | Err(error: E)

  /** A Dafny string literal as text. */
  function Lit(s: string): (t: Text)
    ensures |t| == |s|
    ensures forall i :: 0 <= i < |s| ==> t[i] == s[i] as int
  {
    seq(|s|, i requires 0 <= i < |s| => s[i] as int)
  }

  /** The characters `str.isspace` accepts, which `strip` and `split` remove. */
  predicate IsSpace(c: CodePoint) {
    || 9 <= c <= 13 || 28 <= c <= 32 || c == 0x85 || c == 0xA0 || c == 0x1680
    || 0x2000 <= c <= 0x200A || c == 0x2028 || c == 0x2029 || c == 0x202F
    || c == 0x205F || c == 0x3000
  }

  predicate AllSpace(t: Text) {
    forall i :: 0 <= i < |t| ==> IsSpace(t[i])
  }

  function StripLeft(t: Text): Text {
    if t != [] && IsSpace(t[0]) then StripLeft(t[1..]) else t
  }

  function StripRight(t: Text): Text {
    if t != [] && IsSpace(t[|t| - 1]) then StripRight(t[..|t| - 1]) else t
  }

  /** `str.strip()` */
  function Strip(t: Text): Text {
    StripRight(StripLeft(t))
  }

  /** Text that neither starts nor ends with a space is its own strip. */
  lemma StripTight(t: Text)
    requires t != [] ==> !IsSpace(t[0]) && !IsSpace(t[|t| - 1])
    ensures Strip(t) == t
  {
  }

  lemma {:induction false} StripLeftShape(t: Text) returns (k: nat)
    ensures k <= |t| && StripLeft(t) == t[k..] && AllSpace(t[..k])
    ensures k < |t| ==> !IsSpace(t[k])
  {
    if t != [] && IsSpace(t[0]) {
      var n := StripLeftShape(t[1..]);
      k := n + 1;
      assert t[..k] == [t[0]] + t[1..][..n];
    } else {
      k := 0;
    }
  }

  lemma {:induction false} StripRightShape(t: Text) returns (k: nat)
    ensures k <= |t| && StripRight(t) == t[..k] && AllSpace(t[k..])
    ensures k > 0 ==> !IsSpace(t[k - 1])
  {
    if t != [] && IsSpace(t[|t| - 1]) {
      var s := t[..|t| - 1];
      k := StripRightShape(s);
      assert t[k..] == s[k..] + [t[|t| - 1]];
    } else {
      k := |t|;
      assert t[..k] == t;
    }
  }

  /** Stripping cuts white space off both ends and nothing else. */
  lemma {:induction false} StripShape(t: Text) returns (i: nat, j: nat)
    ensures i <= j <= |t| && Strip(t) == t[i..j] && AllSpace(t[..i]) && AllSpace(t[j..])
    ensures i < j ==> !IsSpace(t[i]) && !IsSpace(t[j - 1])
    ensures Strip(t) == [] <==> AllSpace(t)
  {
    i := StripLeftShape(t);
    var k := StripRightShape(t[i..]);
    j := i + k;
    assert t[i..][..k] == t[i..j] && t[i..][k..] == t[j..];
    if i == j {
      assert t == t[..i] + t[j..];
      assert AllSpace(t);
    } else {
      assert !IsSpace(t[i]);
    }
  }

  /** Text that starts with no space loses only its last spaces. */
  lemma StripFront(t: Text) returns (j: nat)
    requires t != [] && !IsSpace(t[0])
    ensures 0 < j <= |t| && Strip(t) == t[..j] && !IsSpace(t[j - 1])
  {
    j := StripRightShape(t);
    assert t[0..] == t;
  }

  /** Python's order on strings: code point by code point. */
  predicate Less(a: Text, b: Text) {
    b != [] && (a == [] || a[0] < b[0] || (a[0] == b[0] && Less(a[1..], b[1..])))
  }

  lemma {:induction false} LessTrichotomy(a: Text, b: Text)
    ensures Less(a, b) || a == b || Less(b, a)
    ensures !(Less(a, b) && Less(b, a))
    ensures !Less(a, a)
  {
    if a != [] && b != [] {
      LessTrichotomy(a[1..], b[1..]);
      assert a == [a[0]] + a[1..] && b == [b[0]] + b[1..];
      LessTrichotomy(a[1..], a[1..]);
    } else if a != [] {
      LessTrichotomy(a[1..], a[1..]);
    }
  }

  /** One comes before another if it is its beginning, or at the first place where they differ
      has the smaller code point. */
  ghost predicate Before(a: Text, b: Text) {
    exists k :: 0 <= k <= |a| && k < |b| && a[..k] == b[..k] && (k == |a| || a[k] < b[k])
  }

  lemma {:induction false} LessExact(a: Text, b: Text)
    ensures Less(a, b) <==> Before(a, b)
  {
    if a != [] && b != [] && a[0] == b[0] {
      LessExact(a[1..], b[1..]);
      if k :| 0 <= k <= |a[1..]| && k < |b[1..]| && a[1..][..k] == b[1..][..k] && (k == |a[1..]| || a[1..][k] < b[1..][k]) {
        assert a[..k + 1] == [a[0]] + a[1..][..k] && b[..k + 1] == [b[0]] + b[1..][..k];
      }
      if k :| 0 <= k <= |a| && k < |b| && a[..k] == b[..k] && (k == |a| || a[k] < b[k]) {
        assert k > 0;
        assert a[1..][..k - 1] == a[..k][1..] && b[1..][..k - 1] == b[..k][1..];
      }
    } else if Less(a, b) {
      assert a[..0] == b[..0];
    } else if b != [] {
      forall k | 0 < k <= |a| && k < |b|
        ensures a[..k] != b[..k]
      {
        assert a[..k][0] != b[..k][0];
      }
    }
  }

  lemma {:induction false} LessTransitive(a: Text, b: Text, c: Text)
    requires Less(a, b) && Less(b, c)
    ensures Less(a, c)
  {
    if a != [] && a[0] == b[0] == c[0] {
      LessTransitive(a[1..], b[1..], c[1..]);
    }
  }
}
