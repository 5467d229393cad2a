/** Reading and pinning the references of an environment file (tools/verify-images.py). */
module ImagePins {
  import opened Texts
  import opened Json
  import opened AuditLines
  import opened ImageRefs
  import opened TextSearch

  const EQUALS: CodePoint := 61
  const HASH: CodePoint := 35
  const IMAGE_SUFFIX: Text := Lit("_IMAGE")
  const SHA256: Text := Lit("sha256:")

  // ------------------------------------------------------------ read_refs

  predicate EndsWith(s: Text, suffix: Text) {
    |suffix| <= |s| && s[|s| - |suffix|..] == suffix
  }

  /** The image a line assigns, if it does. */
  function Assigned(line: Text): Option<Field> {
    var s := Strip(line);
    var i := First(s, EQUALS);
    if s == [] || s[0] == HASH || i == |s| then None
    else if EndsWith(s[..i], IMAGE_SUFFIX) && s[i + 1..] != [] then Some(Field(s[..i], Str(s[i + 1..])))
    else None
  }

  function RefsOf(lines: seq<Text>): seq<Field> {
    if lines == [] then []
    else
      var refs := RefsOf(lines[..|lines| - 1]);
      match Assigned(lines[|lines| - 1])
      case Some(f) => Put(refs, f)
      case None => refs
  }

  /** `read_refs` */
  method ReadRefs(text: Text) returns (refs: seq<Field>)
    ensures refs == RefsOf(Lines(text))
  {
    refs := [];
    var lines := Lines(text);
    for i := 0 to |lines|
      invariant refs == RefsOf(lines[..i])
    {
      hide Strip, First, Put, EndsWith, RefsOf;
      RefsStep(lines, i);
      var line := Strip(lines[i]);
      if line == [] || line[0] == HASH || EQUALS !in line {
        FirstMissing(line, EQUALS);
        continue;
      }
      var at := First(line, EQUALS);
      FirstPresent(line, EQUALS);
      var key, value := line[..at], line[at + 1..];
      if EndsWith(key, IMAGE_SUFFIX) && value != [] {
        refs := Put(refs, Field(key, Str(value)));
      }
    }
    assert lines[..|lines|] == lines;
  }

  lemma RefsStep(lines: seq<Text>, i: nat)
    requires i < |lines|
    ensures RefsOf(lines[..0]) == []
    ensures RefsOf(lines[..i + 1]) ==
      match Assigned(lines[i])
      case Some(f) => Put(RefsOf(lines[..i]), f)
      case None => RefsOf(lines[..i])
  {
    hide Put, Assigned;
    assert lines[..i + 1][..i] == lines[..i];
  }

  lemma FirstMissing(s: Text, c: CodePoint)
    ensures c !in s ==> First(s, c) == |s|
  {
    var i := First(s, c);
    if i < |s| {
      assert s[i] in s;
    }
  }

  lemma {:induction false} FirstPresent(s: Text, c: CodePoint)
    requires c in s
    ensures First(s, c) < |s|
  {
    if s[0] != c {
      assert s == [s[0]] + s[1..];
      FirstPresent(s[1..], c);
    }
  }

  predicate LastAssigns(lines: seq<Text>, i: nat, f: Field)
    requires i < |lines|
  {
    && Assigned(lines[i]) == Some(f)
    && forall j :: i < j < |lines| ==> Assigned(lines[j]) == None || Assigned(lines[j]).value.key != f.key
  }

  /** The references read are, for each key, those of the last line that assigns it. */
  lemma {:induction false} LastAssignmentWins(lines: seq<Text>, key: Text)
    ensures Lookup(RefsOf(lines), key).None? ==>
      forall i :: 0 <= i < |lines| ==> Assigned(lines[i]) == None || Assigned(lines[i]).value.key != key
    ensures Lookup(RefsOf(lines), key).Some? ==>
      exists i :: 0 <= i < |lines| && LastAssigns(lines, i, Field(key, Lookup(RefsOf(lines), key).value))
  {
    hide Assigned, Put;
    if lines != [] {
      var front, last := lines[..|lines| - 1], lines[|lines| - 1];
      LastAssignmentWins(front, key);
      var f := Assigned(last);
      if f.Some? {
        LookupPut(RefsOf(front), f.value, key);
      }
      if f.Some? && f.value.key == key {
        assert Lookup(RefsOf(lines), key) == Some(f.value.value);
        assert LastAssigns(lines, |lines| - 1, Field(key, f.value.value));
      } else if Lookup(RefsOf(front), key).Some? {
        var v := Lookup(RefsOf(front), key).value;
        var i :| 0 <= i < |front| && LastAssigns(front, i, Field(key, v));
        LastAssignsStill(lines, i, Field(key, v));
      }
    }
  }

  lemma LastAssignsStill(lines: seq<Text>, i: nat, f: Field)
    requires i < |lines| - 1 && LastAssigns(lines[..|lines| - 1], i, f)
    requires Assigned(lines[|lines| - 1]) == None || Assigned(lines[|lines| - 1]).value.key != f.key
    ensures LastAssigns(lines, i, f)
  {
    hide Assigned;
    var front := lines[..|lines| - 1];
    assert forall j :: 0 <= j < |front| ==> front[j] == lines[j];
  }

  // ------------------------------------------------------------ replacing text

  /** `t.replace(was, now, 1)` */
  function ReplaceFirst(t: Text, was: Text, now: Text): Text {
    match Find(t, was)
    case Some(k) => t[..k] + now + t[k + |was|..]
    case None => t
  }

  /** The first line that holds the text. */
  function HitLine(lines: seq<Text>, was: Text): (r: Option<nat>)
    ensures r.Some? ==> r.value < |lines| && Find(lines[r.value], was).Some?
    ensures r.Some? ==> forall i :: 0 <= i < r.value ==> Find(lines[i], was).None?
    ensures r.None? ==> forall i :: 0 <= i < |lines| ==> Find(lines[i], was).None?
  {
    if lines == [] then None
    else if Find(lines[0], was).Some? then Some(0)
    else
      match HitLine(lines[1..], was)
      case Some(i) =>
        assert forall j :: 1 <= j < |lines| ==> lines[j] == lines[1..][j - 1];
        Some(i + 1)
      case None =>
        assert forall j :: 1 <= j < |lines| ==> lines[j] == lines[1..][j - 1];
        None
  }

  lemma HitLineIs(lines: seq<Text>, was: Text, h: nat)
    requires h < |lines| && Find(lines[h], was).Some? && forall i :: 0 <= i < h ==> Find(lines[i], was).None?
    ensures HitLine(lines, was) == Some(h)
  {
    hide Find, HitLine;
  }

  /** Replacing once in the first line that holds the text. */
  function ReplaceInLines(lines: seq<Text>, was: Text, now: Text): seq<Text> {
    match HitLine(lines, was)
    case Some(h) => lines[h := ReplaceFirst(lines[h], was, now)]
    case None => lines
  }

  // ------------------------------------------------------------ a line, its end, and the rest

  predicate AllBreak(t: Text) {
    t != [] && forall i :: 0 <= i < |t| ==> IsBreak(t[i])
  }

  /** No occurrence of a text without line ends spans one. */
  lemma AtConcat(a: Text, end: Text, b: Text, was: Text, k: nat)
    requires OneLine(was) && was != [] && AllBreak(end)
    ensures At(a + end + b, was, k) <==> At(a, was, k) || (k >= |a| + |end| && At(b, was, k - |a| - |end|))
  {
    hide IsBreak;
    var t := a + end + b;
    assert forall i :: 0 <= i < |end| ==> t[|a| + i] == end[i];
    assert At(t, was, k) ==> forall i :: k <= i < k + |was| ==> t[i] == t[k..k + |was|][i - k];
    if k + |was| <= |a| {
      assert t[k..k + |was|] == a[k..k + |was|];
    } else if k >= |a| + |end| {
      if k + |was| <= |t| {
        assert t[k..k + |was|] == b[k - |a| - |end|..k - |a| - |end| + |was|];
      }
    } else if k >= |a| {
      assert IsBreak(t[k]) && !IsBreak(was[0]);
    } else {
      assert IsBreak(t[|a|]) && !IsBreak(was[|a| - k]);
    }
  }

  /** Occurrences in a text made of two, the second starting after place `n`. */
  ghost predicate Splits(t: Text, a: Text, b: Text, was: Text, n: nat) {
    forall j: nat :: At(t, was, j) <==> At(a, was, j) || (j > n && At(b, was, j - n - 1))
  }

  /** The first place of two, the second counted from after place `n`. */
  function Earlier(a: Option<nat>, b: Option<nat>, n: nat): Option<nat> {
    if a.Some? then a else if b.Some? then Some(n + 1 + b.value) else None
  }

  lemma FindSplit(t: Text, a: Text, b: Text, was: Text, n: nat)
    requires Splits(t, a, b, was, n) && (Find(a, was).Some? ==> Find(a, was).value <= n)
    ensures Find(t, was) == Earlier(Find(a, was), Find(b, was), n)
  {
    hide Find, At;
    if Find(a, was).Some? {
      FindIs(t, was, Find(a, was).value);
    } else if Find(b, was).Some? {
      var k := Find(b, was).value;
      assert At(t, was, n + 1 + k) by {
        assert At(b, was, (n + 1 + k) - n - 1);
      }
      FindIs(t, was, n + 1 + k);
    } else {
      FindNone(t, was);
    }
  }

  lemma FindConcat(a: Text, end: Text, b: Text, was: Text)
    requires OneLine(was) && was != [] && AllBreak(end)
    ensures Find(a + end + b, was) == Earlier(Find(a, was), Find(b, was), |a| + |end| - 1)
  {
    hide Find, At, OneLine, AllBreak, Splits;
    SplitsConcat(a, end, b, was);
    FindWithin(a, was);
    EndNotEmpty(end);
    FindSplit(a + end + b, a, b, was, |a| + |end| - 1);
  }

  lemma EndNotEmpty(end: Text)
    requires AllBreak(end)
    ensures |end| > 0
  {
  }

  lemma SplitsConcat(a: Text, end: Text, b: Text, was: Text)
    requires OneLine(was) && was != [] && AllBreak(end)
    ensures |end| > 0 && Splits(a + end + b, a, b, was, |a| + |end| - 1)
  {
    hide At, OneLine, AllBreak;
    EndNotEmpty(end);
    var t := a + end + b;
    forall j: nat
      ensures At(t, was, j) <==> At(a, was, j) || (j > |a| + |end| - 1 && At(b, was, j - (|a| + |end| - 1) - 1))
    {
      AtConcat(a, end, b, was, j);
    }
  }

  lemma ReplaceAt(t: Text, was: Text, now: Text, k: nat)
    requires Find(t, was) == Some(k)
    ensures k + |was| <= |t| && ReplaceFirst(t, was, now) == t[..k] + now + t[k + |was|..]
    ensures t == t[..k] + was + t[k + |was|..]
  {
    hide Find;
    FindWithin(t, was);
    assert At(t, was, k);
    assert t == t[..k] + t[k..k + |was|] + t[k + |was|..];
  }

  lemma CutFirst(a: Text, rest: Text, i: nat, j: nat)
    requires i <= j <= |a|
    ensures (a + rest)[..i] == a[..i] && (a + rest)[j..] == a[j..] + rest
  {
  }

  lemma CutSecond(front: Text, b: Text, i: nat, j: nat)
    requires i <= j <= |b|
    ensures (front + b)[..|front| + i] == front + b[..i] && (front + b)[|front| + j..] == b[j..]
  {
  }

  lemma ReplacedInFirst(a: Text, end: Text, b: Text, was: Text, now: Text)
    requires OneLine(was) && was != [] && AllBreak(end) && Find(a, was).Some?
    ensures ReplaceFirst(a + end + b, was, now) == ReplaceFirst(a, was, now) + end + b
  {
    hide Find, OneLine, At, ReplaceFirst, AllBreak;
    FindConcat(a, end, b, was);
    var k := Find(a, was).value;
    ReplaceAt(a, was, now, k);
    ReplaceAt(a + end + b, was, now, k);
    assert a + end + b == a + (end + b);
    CutFirst(a, end + b, k, k + |was|);
    Regroup(a[..k], now, a[k + |was|..], end, b);
  }

  lemma Regroup(x: Text, now: Text, y: Text, end: Text, b: Text)
    ensures x + now + (y + (end + b)) == (x + now + y) + end + b
  {
  }

  lemma ReplacedInSecond(a: Text, end: Text, b: Text, was: Text, now: Text)
    requires OneLine(was) && was != [] && AllBreak(end) && Find(a, was).None? && Find(b, was).Some?
    ensures ReplaceFirst(a + end + b, was, now) == a + end + ReplaceFirst(b, was, now)
  {
    hide Find, OneLine, At, ReplaceFirst, AllBreak;
    FindConcat(a, end, b, was);
    EndNotEmpty(end);
    var k := Find(b, was).value;
    ReplaceAt(b, was, now, k);
    ReplaceAt(a + end + b, was, now, |a| + |end| + k);
    CutSecond(a + end, b, k, k + |was|);
    RegroupAfter(a + end, b[..k], now, b[k + |was|..]);
  }

  lemma RegroupAfter(front: Text, x: Text, now: Text, y: Text)
    ensures (front + x) + now + y == front + (x + now + y)
  {
  }

  lemma FoundOrNot(t: Text, was: Text, now: Text)
    ensures Find(t, was) == None ==> ReplaceFirst(t, was, now) == t
  {
  }

  lemma ReplaceConcat(a: Text, end: Text, b: Text, was: Text, now: Text)
    requires OneLine(was) && was != [] && AllBreak(end)
    ensures ReplaceFirst(a + end + b, was, now) ==
      if Find(a, was).Some? then ReplaceFirst(a, was, now) + end + b else a + end + ReplaceFirst(b, was, now)
  {
    hide Find, OneLine, ReplaceFirst, AllBreak;
    if Find(a, was).Some? {
      ReplacedInFirst(a, end, b, was, now);
    } else if Find(b, was).Some? {
      ReplacedInSecond(a, end, b, was, now);
    } else {
      FindConcat(a, end, b, was);
      FoundOrNot(a + end + b, was, now);
      FoundOrNot(b, was, now);
    }
  }

  // ------------------------------------------------------------ replacing in a file

  lemma ReplacedLine(t: Text, was: Text, now: Text)
    requires OneLine(t) && OneLine(now) && now != [] && was != []
    ensures OneLine(ReplaceFirst(t, was, now))
    ensures t != [] ==> ReplaceFirst(t, was, now) != []
  {
    hide Find, IsBreak;
    if Find(t, was).Some? {
      FindWithin(t, was);
    }
  }

  /** The text starts as it did, or with what was put in. */
  lemma ReplacedStart(t: Text, was: Text, now: Text)
    requires was != [] && now != []
    ensures t == [] ==> ReplaceFirst(t, was, now) == []
    ensures var r := ReplaceFirst(t, was, now); r != [] ==> r[0] == now[0] || (t != [] && r[0] == t[0])
  {
    hide Find;
    if Find(t, was).Some? {
      FindWithin(t, was);
    }
  }

  lemma BreakIs(t: Text)
    requires t != [] && IsBreak(t[0])
    ensures BreakLen(t) <= |t| && AllBreak(t[..BreakLen(t)])
  {
  }

  /** A line end stays the line end it was, whatever line follows it. */
  lemma BreakSame(end: Text, b: Text, c: Text)
    requires AllBreak(end) && BreakLen(end + b) == |end|
    requires c != [] ==> !IsBreak(c[0]) || (b != [] && c[0] == b[0])
    ensures BreakLen(end + c) == |end|
  {
  }

  lemma LinesCons(a: Text, end: Text, b: Text)
    requires OneLine(a) && AllBreak(end) && BreakLen(end + b) == |end|
    ensures Lines(a + end + b) == [a] + Lines(b)
  {
    hide IsBreak, BreakLen;
    var t := a + end + b;
    assert t[..|a|] == a && t[|a|..] == end + b && t[|a|] == end[0];
    LinesStep(t, |a|);
    assert t[|a| + |end|..] == b;
  }

  lemma ReplaceTail(a: Text, tail: seq<Text>, was: Text, now: Text)
    requires Find(a, was).None?
    ensures ReplaceInLines([a] + tail, was, now) == [a] + ReplaceInLines(tail, was, now)
    ensures HitLine([a] + tail, was).Some? <==> HitLine(tail, was).Some?
  {
    hide Find, ReplaceFirst;
    assert ([a] + tail)[1..] == tail;
  }

  lemma ReplaceHead(a: Text, tail: seq<Text>, was: Text, now: Text)
    requires Find(a, was).Some?
    ensures ReplaceInLines([a] + tail, was, now) == [ReplaceFirst(a, was, now)] + tail
    ensures HitLine([a] + tail, was) == Some(0)
  {
    hide Find, ReplaceFirst;
    HitLineIs([a] + tail, was, 0);
  }

  /** Replacing once in a file is replacing once in its first line that holds the text. */
  lemma {:induction false} LinesOfReplaced(t: Text, was: Text, now: Text)
    requires OneLine(was) && was != [] && OneLine(now) && now != []
    ensures Lines(ReplaceFirst(t, was, now)) == ReplaceInLines(Lines(t), was, now)
    ensures Find(t, was).Some? <==> HitLine(Lines(t), was).Some?
    decreases |t|
  {
    hide Find, OneLine, ReplaceFirst, Lines, LineLen, BreakLen, ReplaceInLines, HitLine, AllBreak;
    if t == [] {
      LinesOfNothing();
      NothingHit(was, now);
    } else {
      var n := LineLen(t);
      if n == |t| {
        assert t[..n] == t;
        OpenLine(t);
        ReplacedLine(t, was, now);
        OpenLine(ReplaceFirst(t, was, now));
        OnlyLine(t, was, now);
      } else {
        BreakIs(t[n..]);
        var m := n + BreakLen(t[n..]);
        var a, end, b := t[..n], t[n..][..BreakLen(t[n..])], t[m..];
        assert t == a + end + b && t[n..] == end + b;
        LinesCons(a, end, b);
        LinesOfReplaced(b, was, now);
        ReplaceConcat(a, end, b, was, now);
        FindConcat(a, end, b, was);
        var now1, rest := ReplaceFirst(a, was, now), ReplaceFirst(b, was, now);
        if Find(a, was).Some? {
          ReplacedLine(a, was, now);
          LinesCons(now1, end, b);
          ReplaceHead(a, Lines(b), was, now);
        } else {
          ReplacedStart(b, was, now);
          StartsPlain(now);
          BreakSame(end, b, rest);
          LinesCons(a, end, rest);
          ReplaceTail(a, Lines(b), was, now);
        }
      }
    }
  }

  lemma StartsPlain(t: Text)
    requires OneLine(t) && t != []
    ensures !IsBreak(t[0])
  {
  }

  lemma NothingHit(was: Text, now: Text)
    requires was != []
    ensures ReplaceFirst([], was, now) == [] && ReplaceInLines([], was, now) == []
    ensures Find([], was).None? && HitLine([], was).None?
  {
  }

  lemma OnlyLine(t: Text, was: Text, now: Text)
    ensures ReplaceInLines([t], was, now) == [ReplaceFirst(t, was, now)]
    ensures HitLine([t], was).Some? <==> Find(t, was).Some?
  {
    hide Find, ReplaceFirst;
    FoundOrNot(t, was, now);
    if Find(t, was).Some? {
      HitLineIs([t], was, 0);
    }
  }

  lemma {:induction false} LinesAreLines(t: Text)
    ensures forall i :: 0 <= i < |Lines(t)| ==> OneLine(Lines(t)[i])
    decreases |t|
  {
    hide OneLine;
    if t != [] {
      var n := LineLen(t);
      if n < |t| {
        LinesAreLines(t[n + BreakLen(t[n..])..]);
      } else {
        assert t[..n] == t;
      }
    }
  }

  // ------------------------------------------------------------ the pin loop

  /** One line of the report: a key, its reference, whether it resolved, and to what. */
  datatype Report = Report(key: Text, ref: Text, ok: bool, detail: Text)

  function OldLine(r: Report): Text {
    r.key + [EQUALS] + r.ref
  }

  function NewLine(r: Report): Text {
    r.key + [EQUALS] + Pinned(r.ref, r.detail)
  }

  /** It resolved to a SHA-256 digest, and its tag is not a moving one. */
  predicate Pins(r: Report) {
    r.ok && SHA256 <= r.detail && !LeftMoving(r.ref)
  }

  /** The reference is to be rewritten, wherever its assignment is first found. */
  predicate Acts(r: Report) {
    Pins(r) && NewLine(r) != OldLine(r)
  }

  predicate Rewrites(text: Text, r: Report) {
    Acts(r) && Find(text, OldLine(r)).Some?
  }

  function PinOne(text: Text, r: Report): Text {
    if Rewrites(text, r) then ReplaceFirst(text, OldLine(r), NewLine(r)) else text
  }

  function PinAll(text: Text, rs: seq<Report>): Text
    decreases rs
  {
    if rs == [] then text else PinOne(PinAll(text, rs[..|rs| - 1]), rs[|rs| - 1])
  }

  /** How many references the loop counts as pinned. */
  function PinCount(text: Text, rs: seq<Report>): nat
    decreases rs
  {
    if rs == [] then 0
    else
      PinCount(text, rs[..|rs| - 1]) + if Rewrites(PinAll(text, rs[..|rs| - 1]), rs[|rs| - 1]) then 1 else 0
  }

  /** The `--pin` loop. */
  method PinReferences(file: Text, rs: seq<Report>) returns (text: Text, pinned: nat)
    ensures text == PinAll(file, rs) && pinned == PinCount(file, rs)
  {
    text, pinned := file, 0;
    for i := 0 to |rs|
      invariant text == PinAll(file, rs[..i]) && pinned == PinCount(file, rs[..i])
    {
      hide Pinned, LeftMoving, ReplaceFirst;
      var r := rs[i];
      assert rs[..i + 1][..i] == rs[..i];
      if !r.ok || !(SHA256 <= r.detail) {
        continue;
      }
      if LeftMoving(r.ref) {
        continue;
      }
      var now, was := NewLine(r), OldLine(r);
      if Find(text, was).Some? && now != was {
        text := ReplaceFirst(text, was, now);
        pinned := pinned + 1;
      }
    }
    assert rs[..|rs|] == rs;
  }

  /** What the registries answer; a host, a repository and a tag or digest is all that is
      asked. `None` is a reference that did not resolve. */
  type Registry = Ref -> Option<Text>

  function ReportOf(registry: Registry, f: Field): Report {
    var ref := if f.value.Str? then f.value.s else [];
    var answer := registry(ParseRef(ref));
    Report(f.key, ref, answer.Some?, if answer.Some? then answer.value else [])
  }

  function Reports(registry: Registry, refs: seq<Field>): (rs: seq<Report>)
    ensures |rs| == |refs| && forall i :: 0 <= i < |refs| ==> rs[i] == ReportOf(registry, refs[i])
  {
    seq(|refs|, i requires 0 <= i < |refs| => ReportOf(registry, refs[i]))
  }

  function ReportsOf(registry: Registry, text: Text): seq<Report> {
    Reports(registry, RefsOf(Lines(text)))
  }

  /** The file after one run with `--pin`. */
  function RunPin(registry: Registry, text: Text): Text {
    PinAll(text, ReportsOf(registry, text))
  }

  /** One run: the references are read from the file, looked up, and pinned in it. */
  method Pin(registry: Registry, file: Text) returns (text: Text, pinned: nat)
    ensures text == RunPin(registry, file) && pinned == PinCount(file, ReportsOf(registry, file))
  {
    hide Lines, RefsOf, PinAll, PinCount, ReportOf;
    var refs := ReadRefs(file);
    var report := [];
    for i := 0 to |refs|
      invariant report == Reports(registry, refs)[..i]
    {
      report := report + [ReportOf(registry, refs[i])];
    }
    assert Reports(registry, refs)[..|refs|] == Reports(registry, refs);
    text, pinned := PinReferences(file, report);
  }
}
