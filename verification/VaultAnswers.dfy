/** The recovery vault's answers (apps/flasher/src/sambuca_flasher/vault.py): their
    unambiguous joining, and the check they must pass. `normalise` and `fold` stand for the
    Unicode tidying of an answer and for `casefold`. */
module VaultAnswers {
  import opened Texts
  import opened Bytes
  import Utf8

  type Normalise = Text -> Text

  const LIMIT := 0x1_0000_0000

  // ------------------------------------------------------------ length-prefixed joining

  /** `n.to_bytes(4, "big")` */
  function Be32(n: nat): (b: Bytes)
    requires n < LIMIT
    ensures |b| == 4
  {
    [n / 0x100_0000, n / 0x1_0000 % 0x100, n / 0x100 % 0x100, n % 0x100]
  }

  function FromBe32(b: Bytes): nat
    requires |b| == 4
  {
    var n := seq(4, i requires 0 <= i < 4 => b[i] as int);
    n[0] * 0x100_0000 + n[1] * 0x1_0000 + n[2] * 0x100 + n[3]
  }

  lemma Be32RoundTrip(n: nat)
    requires n < LIMIT
    ensures FromBe32(Be32(n)) == n
  {
    assert n == n / 0x100_0000 * 0x100_0000 + n / 0x1_0000 % 0x100 * 0x1_0000 + n / 0x100 % 0x100 * 0x100 + n % 0x100;
  }

  /** One normalised answer in UTF-8 behind its length; `None` where the source raises. */
  function Framed(normalise: Normalise, answer: Text): Option<Bytes> {
    match Utf8.Encode(normalise(answer))
    case Some(b) => if |b| < LIMIT then Some(Be32(|b|) + b) else None
    case None => None
  }

  function Frames(normalise: Normalise, answers: seq<Text>): Option<Bytes> {
    if answers == [] then Some([])
    else
      match (Framed(normalise, answers[0]), Frames(normalise, answers[1..]))
      case (Some(b), Some(rest)) => Some(b + rest)
      case _ => None
  }

  lemma {:induction false} FramesStep(normalise: Normalise, answers: seq<Text>, i: nat)
    requires i < |answers| && Frames(normalise, answers[..i]).Some?
    ensures var b := Framed(normalise, answers[i]);
      if b.Some? then Frames(normalise, answers[..i + 1]) == Some(Frames(normalise, answers[..i]).value + b.value)
      else Frames(normalise, answers) == None
  {
    hide Framed;
    if i == 0 {
      assert answers[..1][1..] == [] && answers[..0] == [];
      assert Frames(normalise, answers[..1][1..]) == Some([]);
      var b := Framed(normalise, answers[0]);
      assert b.Some? ==> b.value + [] == [] + b.value;
    } else {
      assert answers[..i + 1][1..] == answers[1..][..i] && answers[..i][1..] == answers[1..][..i - 1];
      FramesStep(normalise, answers[1..], i - 1);
      var b := Framed(normalise, answers[i]);
      if b.Some? {
        var first, mid := Framed(normalise, answers[0]).value, Frames(normalise, answers[1..][..i - 1]).value;
        assert first + (mid + b.value) == (first + mid) + b.value;
      }
    }
  }

  /** `_canonical` */
  method Canonical(normalise: Normalise, answers: seq<Text>) returns (r: Option<Bytes>)
    ensures r == Frames(normalise, answers)
  {
    var parts := [];
    assert answers[..0] == [];
    for i := 0 to |answers|
      invariant Frames(normalise, answers[..i]) == Some(parts)
    {
      hide Framed, Frames;
      FramesStep(normalise, answers, i);
      var part := Framed(normalise, answers[i]);
      if part == None {
        return None;
      }
      parts := parts + part.value;
    }
    assert answers[..|answers|] == answers;
    return Some(parts);
  }

  function Normalised(normalise: Normalise, answers: seq<Text>): (ns: seq<Text>)
    ensures |ns| == |answers| && forall i :: 0 <= i < |ns| ==> ns[i] == normalise(answers[i])
  {
    seq(|answers|, i requires 0 <= i < |answers| => normalise(answers[i]))
  }

  lemma FrameSplits(normalise: Normalise, a: Text, b: Text, xs: Bytes, ys: Bytes)
    requires Framed(normalise, a).Some? && Framed(normalise, b).Some?
    requires Framed(normalise, a).value + xs == Framed(normalise, b).value + ys
    ensures normalise(a) == normalise(b) && xs == ys
  {
    hide Be32, FromBe32;
    var x, y := Utf8.Encode(normalise(a)).value, Utf8.Encode(normalise(b)).value;
    var u, v := Framed(normalise, a).value + xs, Framed(normalise, b).value + ys;
    assert u[..4] == Be32(|x|) && v[..4] == Be32(|y|);
    Be32RoundTrip(|x|);
    Be32RoundTrip(|y|);
    assert u[4..4 + |x|] == x && v[4..4 + |y|] == y;
    assert u[4 + |x|..] == xs && v[4 + |y|..] == ys;
    Utf8.EncodeInjective(normalise(a), normalise(b));
  }

  /** Two lists of answers join to the same bytes exactly when their normal forms are the same
      list: nothing can be re-split. */
  lemma {:induction false} FramesExact(normalise: Normalise, a: seq<Text>, b: seq<Text>)
    requires Frames(normalise, a).Some? && Frames(normalise, b).Some?
    ensures Frames(normalise, a) == Frames(normalise, b) <==> Normalised(normalise, a) == Normalised(normalise, b)
  {
    hide Framed;
    var na, nb := Normalised(normalise, a), Normalised(normalise, b);
    if a != [] {
      FrameNotEmpty(normalise, a);
    }
    if b != [] {
      FrameNotEmpty(normalise, b);
    }
    if a != [] && b != [] {
      FramesExact(normalise, a[1..], b[1..]);
      assert na == [na[0]] + Normalised(normalise, a[1..]);
      assert nb == [nb[0]] + Normalised(normalise, b[1..]);
      if Frames(normalise, a) == Frames(normalise, b) {
        FrameSplits(normalise, a[0], b[0], Frames(normalise, a[1..]).value, Frames(normalise, b[1..]).value);
      }
      if na == nb {
        SameFrame(normalise, a[0], b[0]);
        assert na[1..] == nb[1..];
      }
    }
  }

  lemma SameFrame(normalise: Normalise, a: Text, b: Text)
    requires normalise(a) == normalise(b)
    ensures Framed(normalise, a) == Framed(normalise, b)
  {
  }

  lemma FrameNotEmpty(normalise: Normalise, answers: seq<Text>)
    requires Frames(normalise, answers).Some? && answers != []
    ensures |Frames(normalise, answers).value| >= 4
  {
  }

  // ------------------------------------------------------------ the check

  const MIN_ANSWER_CHARS := 4
  const QUESTION_COUNT := 3
  const MIN_TOTAL := 20

  datatype Weakness =
    | WrongCount
    | TooShort(answer: nat)
    | SameAnswer
    | SameQuestion
    | TooShortTogether

  function TotalLength(ts: seq<Text>): nat {
    if ts == [] then 0 else TotalLength(ts[..|ts| - 1]) + |ts[|ts| - 1]|
  }

  predicate AllDifferent(ts: seq<Text>) {
    forall i, j :: 0 <= i < j < |ts| ==> ts[i] != ts[j]
  }

  function Tidied(fold: Normalise, questions: seq<Text>): (ts: seq<Text>)
    ensures |ts| == |questions| && forall i :: 0 <= i < |ts| ==> ts[i] == fold(Strip(questions[i]))
  {
    seq(|questions|, i requires 0 <= i < |questions| => fold(Strip(questions[i])))
  }

  /** Three answers, each long enough, no two alike, long enough together, and no two questions
      alike. */
  predicate Strong(normalise: Normalise, fold: Normalise, questions: seq<Text>, answers: seq<Text>) {
    var ns := Normalised(normalise, answers);
    && |answers| == QUESTION_COUNT
    && (forall i :: 0 <= i < |ns| ==> |ns[i]| >= MIN_ANSWER_CHARS)
    && AllDifferent(ns)
    && AllDifferent(Tidied(fold, questions))
    && |ns[0]| + |ns[1]| + |ns[2]| >= 20
  }

  /** Why the answers are refused is true of them, and the first thing wrong. */
  predicate WeakBecause(normalise: Normalise, fold: Normalise, questions: seq<Text>, answers: seq<Text>, w: Weakness) {
    var ns := Normalised(normalise, answers);
    match w
    case WrongCount => |answers| != 3
    case TooShort(n) =>
      |answers| == 3 && 1 <= n <= 3 && |ns[n - 1]| < 4 && AllDifferent(ns[..n - 1]) && forall k :: 0 <= k < n - 1 ==> |ns[k]| >= 4
    case SameAnswer => |answers| == 3 && !AllDifferent(ns)
    case SameQuestion => |answers| == 3 && AllDifferent(ns) && !AllDifferent(Tidied(fold, questions))
    case TooShortTogether => |answers| == 3 && AllDifferent(ns) && |ns[0]| + |ns[1]| + |ns[2]| < 20
  }

  lemma TotalOfThree(ts: seq<Text>)
    requires |ts| == 3
    ensures TotalLength(ts) == |ts[0]| + |ts[1]| + |ts[2]|
  {
    assert ts[..2][..1] == ts[..1] && ts[..1][..0] == [];
    assert TotalLength(ts[..1]) == |ts[0]| && TotalLength(ts[..2]) == |ts[0]| + |ts[1]|;
  }

  lemma DifferentSnoc(ts: seq<Text>)
    requires ts != []
    ensures AllDifferent(ts) <==> AllDifferent(ts[..|ts| - 1]) && ts[|ts| - 1] !in ts[..|ts| - 1]
  {
    var front, last := ts[..|ts| - 1], ts[|ts| - 1];
    if AllDifferent(front) && last !in front {
      forall i, j | 0 <= i < j < |ts|
        ensures ts[i] != ts[j]
      {
        assert front[i] == ts[i];
      }
    }
  }

  /** `len(set(ts)) == len(ts)` says that no two are alike. */
  lemma {:induction false} SetOfDifferent(ts: seq<Text>)
    ensures |set t | t in ts| == |ts| <==> AllDifferent(ts)
    ensures |set t | t in ts| <= |ts|
  {
    if ts != [] {
      hide AllDifferent;
      var front, last := ts[..|ts| - 1], ts[|ts| - 1];
      SetOfDifferent(front);
      DifferentSnoc(ts);
      assert ts == front + [last];
      assert (set t | t in ts) == (set t | t in front) + {last};
    }
  }

  /** `check_answers`: it approves exactly strong answers. */
  method CheckAnswers(normalise: Normalise, fold: Normalise, questions: seq<Text>, answers: seq<Text>)
    returns (weakness: Option<Weakness>)
    ensures weakness == None <==> Strong(normalise, fold, questions, answers)
    ensures weakness == Some(WrongCount) <==> |answers| != QUESTION_COUNT
    ensures weakness.Some? ==> WeakBecause(normalise, fold, questions, answers, weakness.value)
  {
    hide TotalLength;
    if |answers| != QUESTION_COUNT {
      return Some(WrongCount);
    }
    ghost var ns := Normalised(normalise, answers);
    var seen := {};
    for i := 0 to |answers|
      invariant seen == set k | 0 <= k < i :: ns[k]
      invariant forall k :: 0 <= k < i ==> |ns[k]| >= MIN_ANSWER_CHARS
      invariant forall j, k :: 0 <= j < k < i ==> ns[j] != ns[k]
    {
      var n := normalise(answers[i]);
      if |n| < MIN_ANSWER_CHARS {
        return Some(TooShort(i + 1));
      }
      if n in seen {
        return Some(SameAnswer);
      }
      seen := seen + {n};
    }
    var tidied := Tidied(fold, questions);
    SetOfDifferent(tidied);
    if |set t | t in tidied| != |questions| {
      return Some(SameQuestion);
    }
    TotalOfThree(ns);
    if TotalLength(Normalised(normalise, answers)) < MIN_TOTAL {
      return Some(TooShortTogether);
    }
    return None;
  }

  // ------------------------------------------------------------ reading the frames back

  /** A reader of frames that knows nothing of answers: four octets of length, most significant
      first, and then that many octets. */
  function Unframed(b: Bytes): Option<seq<Bytes>>
    decreases |b|
  {
    if b == [] then Some([])
    else if |b| < 4 then None
    else
      var n := FromBe32(b[..4]);
      if |b| < 4 + n then None
      else
        match Unframed(b[4 + n..])
        case Some(rest) => Some([b[4..4 + n]] + rest)
        case None => None
  }

  /** What scrypt is given reads back as the answers' normal forms in UTF-8, one frame each. */
  lemma {:induction false} FramesRead(normalise: Normalise, answers: seq<Text>)
    requires Frames(normalise, answers).Some?
    ensures var read := Unframed(Frames(normalise, answers).value);
      && read.Some? && |read.value| == |answers|
      && forall i :: 0 <= i < |answers| ==> Utf8.Encode(normalise(answers[i])) == Some(read.value[i])
  {
    hide Be32, FromBe32;
    if answers != [] {
      var b := Frames(normalise, answers).value;
      var x := Utf8.Encode(normalise(answers[0])).value;
      var rest := Frames(normalise, answers[1..]).value;
      FramesRead(normalise, answers[1..]);
      Be32RoundTrip(|x|);
      assert b == Be32(|x|) + x + rest;
      assert b[..4] == Be32(|x|) && b[4..4 + |x|] == x && b[4 + |x|..] == rest;
      var read := Unframed(rest).value;
      assert Unframed(b) == Some([x] + read);
      assert forall i :: 0 < i < |answers| ==> answers[i] == answers[1..][i - 1] && ([x] + read)[i] == read[i - 1];
    }
  }
}
