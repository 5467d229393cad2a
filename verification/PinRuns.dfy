/** Two runs of `--pin` (tools/verify-images.py): each reads the references from the file, looks
    them up, and rewrites the file; the second reads what the first one left. */
module PinRuns {
  import opened Texts
  import opened Json
  import opened AuditLines
  import opened ImageRefs
  import opened TextSearch
  import opened ImagePins
  import opened PinLines

  // ------------------------------------------------------------ a rewrite of the line it was read from

  /** The first line that holds the assignment, when its turn comes, is the line it was read
      from: the last one that assigns the key. */
  predicate OwnHit(lines: seq<Text>, rs: seq<Report>, k: nat)
    requires k < |rs|
  {
    HitLine(LinesAfter(lines, rs[..k]), OldLine(rs[k])) == LastLine(lines, rs[k].key)
  }

  predicate OwnUpTo(lines: seq<Text>, rs: seq<Report>, n: nat)
    requires n <= |rs|
  {
    forall k :: 0 <= k < n && Acts(rs[k]) ==> OwnHit(lines, rs, k)
  }

  predicate HitsOwn(lines: seq<Text>, rs: seq<Report>) {
    OwnUpTo(lines, rs, |rs|)
  }

  function Own(lines: seq<Text>, r: Report): nat
    requires LastLine(lines, r.key).Some?
  {
    LastLine(lines, r.key).value
  }

  lemma OwnApart(lines: seq<Text>, rs: seq<Report>, j: nat, k: nat)
    requires Sources(lines, rs) && j < |rs| && k < |rs| && j != k
    ensures Own(lines, rs[j]) != Own(lines, rs[k])
  {
    hide KeyOf, LastLine, FromLine, Strip, OldLine;
  }

  lemma LinesAfterStep(lines: seq<Text>, rs: seq<Report>, n: nat)
    requires n < |rs|
    ensures LinesAfter(lines, rs[..n + 1]) == PinLine(LinesAfter(lines, rs[..n]), rs[n])
    ensures LinesAfter(lines, rs[..0]) == lines
  {
    hide PinLine;
    assert rs[..n + 1][..n] == rs[..n];
  }

  lemma {:induction false} AfterLength(lines: seq<Text>, rs: seq<Report>)
    ensures |LinesAfter(lines, rs)| == |lines|
    decreases rs
  {
    hide HitLine, ReplaceFirst, Acts;
    if rs != [] {
      AfterLength(lines, rs[..|rs| - 1]);
    }
  }

  /** With every rewrite on its own line, a line that was read from is rewritten in its turn
      and is what it was until then. */
  lemma {:induction false} OwnRewritten(lines: seq<Text>, rs: seq<Report>, n: nat, k: nat)
    requires n <= |rs| && Sources(lines, rs) && OwnUpTo(lines, rs, n) && k < |rs|
    ensures |LinesAfter(lines, rs[..n])| == |lines|
    ensures var x := Own(lines, rs[k]);
      LinesAfter(lines, rs[..n])[x] ==
        if k < n && Acts(rs[k]) then ReplaceFirst(lines[x], OldLine(rs[k]), NewLine(rs[k])) else lines[x]
  {
    hide HitLine, ReplaceFirst, Acts, LastLine, FromLine, Strip, OldLine, NewLine, LinesAfter, PinLine, OwnHit, Sources;
    OwnIn(lines, rs, k);
    if n == 0 {
      assert rs[..0] == [];
      NothingAfter(lines);
    } else {
      LinesAfterStep(lines, rs, n - 1);
      OwnRewritten(lines, rs, n - 1, k);
      OwnStep(lines, rs, n - 1, Own(lines, rs[k]));
      if k != n - 1 {
        OwnApart(lines, rs, n - 1, k);
      }
    }
  }

  lemma OwnIn(lines: seq<Text>, rs: seq<Report>, k: nat)
    requires Sources(lines, rs) && k < |rs|
    ensures LastLine(lines, rs[k].key).Some? && Own(lines, rs[k]) < |lines|
  {
    hide FromLine, KeyOf, Strip, OldLine;
  }

  lemma OwnStep(lines: seq<Text>, rs: seq<Report>, n: nat, x: nat)
    requires n < |rs| && Sources(lines, rs) && (Acts(rs[n]) ==> OwnHit(lines, rs, n))
    requires |LinesAfter(lines, rs[..n])| == |lines| && x < |lines|
    ensures LastLine(lines, rs[n].key).Some?
    ensures var was := LinesAfter(lines, rs[..n]);
      && |PinLine(was, rs[n])| == |lines|
      && PinLine(was, rs[n])[x] ==
           if Acts(rs[n]) && x == Own(lines, rs[n]) then ReplaceFirst(was[x], OldLine(rs[n]), NewLine(rs[n])) else was[x]
  {
    hide HitLine, ReplaceFirst, Acts, LastLine, Strip, OldLine, NewLine, LinesAfter, Sources;
    OwnIn(lines, rs, n);
  }

  lemma NothingAfter(lines: seq<Text>)
    ensures LinesAfter(lines, []) == lines
  {
  }

  lemma {:induction false} FirstChange(lines: seq<Text>, rs: seq<Report>, x: nat, n: nat) returns (j: nat)
    requires x < |lines| && n <= |rs|
    requires |LinesAfter(lines, rs[..n])| == |lines| && LinesAfter(lines, rs[..n])[x] != lines[x]
    ensures j < n && |LinesAfter(lines, rs[..j])| == |lines| == |LinesAfter(lines, rs[..j + 1])|
    ensures LinesAfter(lines, rs[..j])[x] == lines[x] && LinesAfter(lines, rs[..j + 1])[x] != lines[x]
    decreases n
  {
    hide LinesAfter;
    if n == 0 {
      assert rs[..0] == [];
      NothingAfter(lines);
    }
    AfterLength(lines, rs[..n - 1]);
    if LinesAfter(lines, rs[..n - 1])[x] == lines[x] {
      j := n - 1;
    } else {
      j := FirstChange(lines, rs, x, n - 1);
    }
  }

  /** A text without outer spaces that stands in a line is no longer than the line's strip,
      and is the strip if it is as long. */
  lemma {:induction false} WithinStrip(t: Text, w: Text)
    requires Tight(w) && Find(t, w).Some?
    ensures |w| <= |Strip(t)| && (|w| == |Strip(t)| ==> w == Strip(t))
  {
    hide Strip, IsSpace, Find;
    var i, j := StripShape(t);
    var k := Find(t, w).value;
    assert t[k..k + |w|] == w;
    assert forall m :: k <= m < k + |w| ==> t[m] == w[m - k];
    assert forall m :: 0 <= m < i ==> t[..i][m] == t[m];
    assert forall m :: j <= m < |t| ==> t[j..][m - j] == t[m];
    assert k >= i && k + |w| <= j;
  }

  lemma SameOldLine(a: Report, b: Report)
    requires EQUALS !in a.key && EQUALS !in b.key && OldLine(a) == OldLine(b)
    ensures a.key == b.key
  {
    hide First;
    FirstIs(OldLine(a), EQUALS, |a.key|) by { assert OldLine(a)[..|a.key|] == a.key; }
    FirstIs(OldLine(b), EQUALS, |b.key|) by { assert OldLine(b)[..|b.key|] == b.key; }
    assert OldLine(a)[..|a.key|] == a.key && OldLine(b)[..|b.key|] == b.key;
  }

  /** If one rewrite misses its own line, some reference that was to be pinned still stands
      in its line at the end: whatever rewrote the missed line missed its own, and had the
      shorter assignment. */
  lemma {:induction false} SomeoneMissed(lines: seq<Text>, rs: seq<Report>, k: nat) returns (j: nat)
    requires Sources(lines, rs) && k < |rs| && Acts(rs[k]) && !OwnHit(lines, rs, k)
    ensures j < |rs| && Acts(rs[j])
    ensures |LinesAfter(lines, rs)| == |lines| && LinesAfter(lines, rs)[Own(lines, rs[j])] == lines[Own(lines, rs[j])]
    decreases |OldLine(rs[k])|
  {
    hide HitLine, ReplaceFirst, Acts, LastLine, Strip, OldLine, NewLine, LinesAfter, Find, Tight, OneLine, EndsWith;
    AfterLength(lines, rs);
    var x := Own(lines, rs[k]);
    if LinesAfter(lines, rs)[x] == lines[x] {
      j := k;
    } else {
      assert rs[..|rs|] == rs;
      var n := FirstChange(lines, rs, x, |rs|);
      LinesAfterStep(lines, rs, n);
      OneChanged(LinesAfter(lines, rs[..n]), rs[n], x);
      assert HitLine(LinesAfter(lines, rs[..n]), OldLine(rs[n])) == Some(x);
      assert n != k;
      OwnApart(lines, rs, n, k);
      assert !OwnHit(lines, rs, n);
      WithinStrip(lines[x], OldLine(rs[n]));
      Shorter(rs[n], rs[k]);
      j := SomeoneMissed(lines, rs, n);
    }
  }

  lemma Shorter(a: Report, b: Report)
    requires FromLine(a) && FromLine(b) && a.key != b.key
    requires |OldLine(a)| <= |OldLine(b)| && (|OldLine(a)| == |OldLine(b)| ==> OldLine(a) == OldLine(b))
    ensures |OldLine(a)| < |OldLine(b)|
  {
    hide OldLine, OneLine, Tight, EndsWith, Acts;
    if OldLine(a) == OldLine(b) {
      SameOldLine(a, b);
    }
  }

  // ------------------------------------------------------------ the second run

  /** The reference as the first run leaves it. */
  function Repinned(r: Report): Text {
    if Acts(r) then Pinned(r.ref, r.detail) else r.ref
  }

  lemma OwnAssigned(line: Text, r: Report)
    requires FromLine(r) && Strip(line) == OldLine(r) && KeyOf(line) == Some(r.key)
    ensures Assigned(line) == Some(Field(r.key, Str(r.ref)))
  {
    hide Strip, IsSpace, IsBreak, Acts, Tight;
    FirstIs(OldLine(r), EQUALS, |r.key|) by { assert OldLine(r)[..|r.key|] == r.key; }
    assert OldLine(r)[|r.key| + 1..] == r.ref;
  }

  lemma {:induction false} StripAllSpace(u: Text)
    requires AllSpace(u)
    ensures StripLeft(u) == [] && StripRight(u) == []
  {
    hide IsSpace;
    if u != [] {
      StripAllSpace(u[1..]);
      StripRightAll(u);
    }
  }

  lemma {:induction false} StripRightAll(u: Text)
    requires AllSpace(u)
    ensures StripRight(u) == []
  {
    hide IsSpace;
    if u != [] {
      StripRightAll(u[..|u| - 1]);
    }
  }

  /** In the line it was read from, the assignment is found after the leading spaces. */
  lemma {:induction false} FoundInOwn(line: Text, w: Text) returns (u: Text, v: Text)
    requires Strip(line) == w && Tight(w)
    ensures line == u + w + v && AllSpace(u) && AllSpace(v) && Find(line, w) == Some(|u|)
  {
    hide Strip, IsSpace, Find;
    var i, j := StripShape(line);
    u, v := line[..i], line[j..];
    assert line == u + w + v;
    assert forall m :: 0 <= m < i ==> u[m] == line[m];
    assert line[i..i + |w|] == w;
    forall k: nat | k < i
      ensures !At(line, w, k)
    {
      assert k + |w| <= |line| ==> line[k..k + |w|][0] == line[k];
    }
    FindIs(line, w, i);
  }

  /** What a rewrite of its own line leaves there. */
  lemma {:induction false} OwnReads(line: Text, r: Report)
    requires FromLine(r) && Acts(r) && Strip(line) == OldLine(r)
    ensures Assigned(ReplaceFirst(line, OldLine(r), NewLine(r))) == Some(Field(r.key, Str(Pinned(r.ref, r.detail))))
    ensures Find(line, OldLine(r)).Some?
  {
    hide Strip, IsSpace, IsBreak, Find, StripLeft, StripRight, Pinned, ReplaceFirst, Acts, Tight, OneLine;
    var u, v := FoundInOwn(line, OldLine(r));
    NewLineTight(r);
    ReplaceAt(line, OldLine(r), NewLine(r), |u|);
    assert line[..|u|] == u && line[|u| + |OldLine(r)|..] == v;
    StripAround(u, NewLine(r), v);
    StripAllSpace(u);
    StripAllSpace(v);
    NewLineAssigns(ReplaceFirst(line, OldLine(r), NewLine(r)), r);
  }

  lemma NewLineAssigns(line: Text, r: Report)
    requires FromLine(r) && Strip(line) == [] + NewLine(r) + [] && Pinned(r.ref, r.detail) != []
    ensures Assigned(line) == Some(Field(r.key, Str(Pinned(r.ref, r.detail))))
  {
    hide Strip, IsSpace, IsBreak, Pinned, Acts, Tight, OneLine;
    var s := NewLine(r);
    assert [] + s + [] == s;
    assert s[..|r.key|] == r.key && s[0] == r.key[0] && s[|r.key|] == EQUALS;
    FirstIs(s, EQUALS, |r.key|);
    assert First(s, EQUALS) == |r.key| < |s|;
    assert s[|r.key| + 1..] == Pinned(r.ref, r.detail);
  }

  /** Looking up a pinned reference gives its own digest, so there is nothing to rewrite. */
  lemma PinnedRests(registry: Registry, r: Report)
    requires Faithful(registry) && Acts(r) && r == ReportOf(registry, Field(r.key, Str(r.ref)))
    ensures !Acts(ReportOf(registry, Field(r.key, Str(Pinned(r.ref, r.detail)))))
  {
    hide ParseRef, Pinned, LeftMoving, IsDigest;
    PinKeepsImage(r.ref, r.detail);
    var before := ParseRef(r.ref);
    assert registry(before) == Some(r.detail);
    assert before.(tag := r.detail) == ParseRef(Pinned(r.ref, r.detail));
  }

  lemma IsReport(registry: Registry, lines: seq<Text>, k: nat)
    requires k < |RefsOf(lines)|
    ensures var r := Reports(registry, RefsOf(lines))[k];
      RefsOf(lines)[k].value.Str? ==> r == ReportOf(registry, Field(r.key, Str(r.ref))) && RefsOf(lines)[k] == Field(r.key, Str(r.ref))
  {
    hide RefsOf, ParseRef;
  }

  lemma {:induction false} RefIsText(lines: seq<Text>, k: nat)
    requires k < |RefsOf(lines)|
    ensures RefsOf(lines)[k].value.Str?
    ensures LastLine(lines, RefsOf(lines)[k].key).Some?
    ensures RefsOf(lines)[k].value == ValueOf(lines[LastLine(lines, RefsOf(lines)[k].key).value])
  {
    hide RefsOf, Assigned, LastLine;
    RefsDistinct(lines);
    LookupFinds(RefsOf(lines), k);
    LookupIsLast(lines, RefsOf(lines)[k].key);
    AssignedShape(lines[LastLine(lines, RefsOf(lines)[k].key).value]);
  }

  /** After a run in which every rewrite hit its own line, the references read from the file
      are the same keys in the same order, each pinned if it was to be pinned. */
  lemma {:induction false} PinnedAreRead(registry: Registry, text: Text, k: nat)
    requires Faithful(registry) && HitsOwn(Lines(text), ReportsOf(registry, text))
    requires k < |RefsOf(Lines(text))|
    ensures var refs, after := RefsOf(Lines(text)), RefsOf(Lines(RunPin(registry, text)));
      |after| == |refs| && after[k] == Field(refs[k].key, Str(Repinned(ReportOf(registry, refs[k]))))
  {
    hide Lines, RefsOf, PinAll, LinesAfter, Acts, KeyOf, LastLine, Strip, OldLine, NewLine, Pinned, OneLine, Tight, EndsWith,
         HitLine, Assigned, ReplaceFirst, ReportOf, Faithful;
    var lines := Lines(text);
    var rs := ReportsOf(registry, text);
    LinesAreLines(text);
    ReportsSources(registry, lines);
    LinesOfAll(text, rs);
    AfterKeepsKeys(lines, rs);
    var now := LinesAfter(lines, rs);
    RefsSameKeys(lines, now);
    var r := rs[k];
    assert rs[..|rs|] == rs;
    OwnRewritten(lines, rs, |rs|, k);
    RefIsText(lines, k);
    IsReport(registry, lines, k);
    RefIsText(now, k);
    LastLineSame(lines, now, r.key);
    var x := Own(lines, r);
    OwnAssigned(lines[x], r);
    if Acts(r) {
      OwnReads(lines[x], r);
    }
  }

  lemma {:induction false} CountSteps(text: Text, rs: seq<Report>, n: nat)
    requires n <= |rs|
    ensures PinCount(text, rs[..n]) <= PinCount(text, rs)
    ensures PinCount(text, rs) == 0 ==> PinAll(text, rs[..n]) == text
    ensures n < |rs| && PinCount(text, rs) == 0 ==> !Rewrites(PinAll(text, rs[..n]), rs[n])
    decreases |rs|
  {
    hide Rewrites, ReplaceFirst;
    if n == |rs| {
      assert rs[..n] == rs;
      if n > 0 {
        CountSteps(text, rs[..n - 1], n - 1);
        assert rs[..n - 1][..n - 1] == rs[..n - 1];
      }
    } else {
      CountSteps(text, rs[..|rs| - 1], n);
      assert rs[..|rs| - 1][..n] == rs[..n];
      if n < |rs| - 1 {
        assert rs[..|rs| - 1][n] == rs[n];
      }
    }
  }

  lemma {:induction false} NoneActs(text: Text, rs: seq<Report>)
    requires forall k :: 0 <= k < |rs| ==> !Acts(rs[k])
    ensures PinCount(text, rs) == 0 && PinAll(text, rs) == text
    decreases rs
  {
    hide Acts;
    if rs != [] {
      NoneActs(text, rs[..|rs| - 1]);
    }
  }

  /** A run counts nothing exactly when no reference it reads is to be rewritten: every one of
      them is found, if nowhere else then where it was read. */
  lemma {:induction false} CountsNothing(registry: Registry, text: Text)
    requires Faithful(registry)
    ensures PinCount(text, ReportsOf(registry, text)) == 0 <==>
      forall k :: 0 <= k < |ReportsOf(registry, text)| ==> !Acts(ReportsOf(registry, text)[k])
    ensures PinCount(text, ReportsOf(registry, text)) == 0 ==> RunPin(registry, text) == text
  {
    hide Lines, RefsOf, PinAll, PinCount, Acts, LastLine, Strip, OldLine, NewLine, OneLine, Tight, EndsWith, ReportOf, Faithful, Find;
    var lines, rs := Lines(text), ReportsOf(registry, text);
    LinesAreLines(text);
    ReportsSources(registry, lines);
    assert rs[..|rs|] == rs;
    CountSteps(text, rs, |rs|);
    if PinCount(text, rs) == 0 {
      forall k | 0 <= k < |rs|
        ensures !Acts(rs[k])
      {
        CountSteps(text, rs, k);
        var u, v := FoundInOwn(lines[Own(lines, rs[k])], OldLine(rs[k]));
        LinesOfOne(text, rs[k]);
      }
    }
    if forall k :: 0 <= k < |rs| ==> !Acts(rs[k]) {
      NoneActs(text, rs);
    }
  }

  /** A second run, which reads the references from the file the first one wrote, rewrites
      nothing exactly if in the first run every rewrite fell on the line the reference was
      read from. */
  lemma {:induction false} SecondRunExact(registry: Registry, text: Text)
    requires Faithful(registry)
    ensures var once := RunPin(registry, text);
      PinCount(once, ReportsOf(registry, once)) == 0 <==> HitsOwn(Lines(text), ReportsOf(registry, text))
    ensures var once := RunPin(registry, text);
      HitsOwn(Lines(text), ReportsOf(registry, text)) ==> RunPin(registry, once) == once
  {
    hide Lines, RefsOf, RunPin, PinCount, Acts, ReportOf, Faithful, HitsOwn;
    var once := RunPin(registry, text);
    CountsNothing(registry, once);
    if HitsOwn(Lines(text), ReportsOf(registry, text)) {
      OwnSettles(registry, text);
    } else {
      MissUnsettles(registry, text);
    }
  }

  lemma {:induction false} OwnSettles(registry: Registry, text: Text)
    requires Faithful(registry) && HitsOwn(Lines(text), ReportsOf(registry, text))
    ensures var rs := ReportsOf(registry, RunPin(registry, text));
      forall k :: 0 <= k < |rs| ==> !Acts(rs[k])
  {
    hide Lines, RefsOf, RunPin, Acts, ReportOf, Faithful, HitsOwn, Pinned;
    var refs, after := RefsOf(Lines(text)), RefsOf(Lines(RunPin(registry, text)));
    ReadCounts(registry, text);
    forall k | 0 <= k < |after|
      ensures !Acts(ReportOf(registry, after[k]))
    {
      PinnedAreRead(registry, text, k);
      RefIsText(Lines(text), k);
      IsReport(registry, Lines(text), k);
      if Acts(ReportOf(registry, refs[k])) {
        PinnedRests(registry, ReportOf(registry, refs[k]));
      }
    }
  }

  lemma ReadCounts(registry: Registry, text: Text)
    requires Faithful(registry)
    ensures SameFieldKeys(RefsOf(Lines(text)), RefsOf(Lines(RunPin(registry, text))))
    ensures SameKeys(Lines(text), Lines(RunPin(registry, text)))
    ensures Lines(RunPin(registry, text)) == LinesAfter(Lines(text), ReportsOf(registry, text))
    ensures Sources(Lines(text), ReportsOf(registry, text))
  {
    hide Lines, RefsOf, PinAll, LinesAfter, FromLine, KeyOf, ReportOf, Faithful, LastLine, Strip, OldLine;
    LinesAreLines(text);
    ReportsSources(registry, Lines(text));
    LinesOfAll(text, ReportsOf(registry, text));
    AfterKeepsKeys(Lines(text), ReportsOf(registry, text));
    RefsSameKeys(Lines(text), Lines(RunPin(registry, text)));
  }

  lemma {:induction false} MissUnsettles(registry: Registry, text: Text)
    requires Faithful(registry) && !HitsOwn(Lines(text), ReportsOf(registry, text))
    ensures var rs := ReportsOf(registry, RunPin(registry, text));
      exists k :: 0 <= k < |rs| && Acts(rs[k])
  {
    hide Lines, RefsOf, RunPin, Acts, ReportOf, Faithful, Pinned, OwnHit, LinesAfter, FromLine, KeyOf, LastLine, Strip, OldLine, Assigned;
    var lines, rs := Lines(text), ReportsOf(registry, text);
    ReadCounts(registry, text);
    var k :| 0 <= k < |rs| && Acts(rs[k]) && !OwnHit(lines, rs, k);
    var j := SomeoneMissed(lines, rs, k);
    var once := Lines(RunPin(registry, text));
    RefIsText(lines, j);
    RefIsText(once, j);
    KeyIsRefs(registry, lines, j);
    KeyIsRefs(registry, once, j);
    LastLineSame(lines, once, rs[j].key);
    assert RefsOf(once)[j] == RefsOf(lines)[j];
    assert ReportsOf(registry, RunPin(registry, text))[j] == rs[j];
  }

  lemma KeyIsRefs(registry: Registry, lines: seq<Text>, j: nat)
    requires j < |RefsOf(lines)|
    ensures Reports(registry, RefsOf(lines))[j].key == RefsOf(lines)[j].key
  {
    hide RefsOf, ParseRef;
  }

  // ------------------------------------------------------------ what is pinned, and to what

  /** The part of a reference in front of its digest. */
  predicate NameOfRef(ref: Text, name: Text) {
    AT !in name && (ref == name || (|ref| > |name| && ref[..|name|] == name && ref[|name|] == AT))
  }

  /** The words of the list of moving tags. */
  predicate MovingWord(w: Text) {
    w == Lit("latest") || w == Lit("main") || w == Lit("master") || w == Lit("edge") || w == Lit("stable")
  }

  /** After its last colon, or as a whole if it has none, the name reads as a moving tag. */
  predicate EndsMoving(name: Text) {
    exists i :: 0 <= i <= |name| && (i == 0 || name[i - 1] == COLON) && COLON !in name[i..] && MovingWord(name[i..])
  }

  lemma MovesExactly(ref: Text, name: Text)
    requires NameOfRef(ref, name)
    ensures Base(ref) == name
    ensures LeftMoving(ref) <==> EndsMoving(name)
  {
    hide IsMoving, MovingWord;
    FirstIs(ref, AT, |name|);
    assert ref[..|name|] == name;
    var i := AfterLast(name, COLON);
    forall w: Text
      ensures IsMoving(w) <==> MovingWord(w)
    {
      SameWords(w);
    }
    if j :| 0 <= j <= |name| && (j == 0 || name[j - 1] == COLON) && COLON !in name[j..] && MovingWord(name[j..]) {
      AfterLastIs(name, COLON, j);
    }
  }

  lemma SameWords(w: Text)
    ensures IsMoving(w) <==> MovingWord(w)
  {
  }

  /** What a run makes of one reference: with an answer that is a SHA-256 digest, and a tag that
      does not move, it becomes its name, tag and all, at that digest; otherwise it stays. */
  lemma RepinnedExact(registry: Registry, key: Text, ref: Text, name: Text)
    requires NameOfRef(ref, name)
    ensures Repinned(ReportOf(registry, Field(key, Str(ref)))) ==
      match registry(ParseRef(ref))
      case None => ref
      case Some(digest) => if SHA256 <= digest && !EndsMoving(name) then name + [AT] + digest else ref
  {
    hide LeftMoving, EndsMoving, ParseRef;
    MovesExactly(ref, name);
    PinChanges(ref, name);
    var r := ReportOf(registry, Field(key, Str(ref)));
    assert Pins(r) ==> Pinned(ref, r.detail) == name + [AT] + r.detail;
    assert OldLine(r) == key + [EQUALS] + ref;
    if Pins(r) && NewLine(r) == OldLine(r) {
      assert NewLine(r)[|key| + 1..] == Pinned(ref, r.detail) && OldLine(r)[|key| + 1..] == ref;
    }
  }

  lemma PinChanges(ref: Text, name: Text)
    requires NameOfRef(ref, name)
    ensures forall d: Text :: Base(ref) == name ==> Pinned(ref, d) == name + [AT] + d
  {
  }

  /** What a line assigns: it reads, without the spaces around it, a key that ends in `_IMAGE`,
      an equals sign and a value, and it is no comment. */
  lemma AssignedExact(line: Text, key: Text, value: Text)
    ensures Assigned(line) == Some(Field(key, Str(value))) <==>
      && Strip(line) == key + [EQUALS] + value && value != []
      && EQUALS !in key && EndsWith(key, Lit("_IMAGE")) && key[0] != HASH
  {
    hide Strip;
    AssignedShape(line);
    var s := Strip(line);
    if s == key + [EQUALS] + value && value != [] && EQUALS !in key && EndsWith(key, Lit("_IMAGE")) && key[0] != HASH {
      assert s[..|key|] == key && s[|key|] == EQUALS && s[|key| + 1..] == value;
      FirstIs(s, EQUALS, |key|);
    }
  }

  /** How many references are to be rewritten. */
  function ActCount(rs: seq<Report>): nat
    decreases rs
  {
    if rs == [] then 0 else ActCount(rs[..|rs| - 1]) + if Acts(rs[|rs| - 1]) then 1 else 0
  }

  /** The number the run prints is that of the references it pinned, when every rewrite falls on
      its own line. */
  lemma {:induction false} CountExact(registry: Registry, text: Text)
    requires Faithful(registry) && HitsOwn(Lines(text), ReportsOf(registry, text))
    ensures PinCount(text, ReportsOf(registry, text)) == ActCount(ReportsOf(registry, text))
  {
    hide Lines, RefsOf, PinCount, Acts, ReportOf, Faithful, LastLine, OneLine;
    var rs := ReportsOf(registry, text);
    LinesAreLines(text);
    ReportsSources(registry, Lines(text));
    assert rs[..|rs|] == rs;
    CountUpTo(text, rs, |rs|);
  }

  lemma {:induction false} CountUpTo(text: Text, rs: seq<Report>, n: nat)
    requires n <= |rs| && Sources(Lines(text), rs) && OwnUpTo(Lines(text), rs, n)
    ensures PinCount(text, rs[..n]) == ActCount(rs[..n])
  {
    hide Lines, Rewrites, Acts, LastLine, FromLine, OldLine, Strip, PinAll, HitLine, LinesAfter;
    if n > 0 {
      var front := rs[..n - 1];
      assert rs[..n][..n - 1] == front;
      CountUpTo(text, rs, n - 1);
      assert forall i :: 0 <= i < |front| ==> front[i] == rs[i];
      LinesOfAll(text, front);
      LinesOfOne(PinAll(text, front), rs[n - 1]);
      assert Acts(rs[n - 1]) ==> OwnHit(Lines(text), rs, n - 1);
    }
  }
}
