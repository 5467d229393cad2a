/** When the condition for a second run of `--pin` to rest can be read off the file as it is,
    what one reference's rewrite does, and a file that is rewritten again and again. */
module PinFiles {
  import opened Texts
  import opened Json
  import opened AuditLines
  import opened ImageRefs
  import opened TextSearch
  import opened ImagePins
  import opened PinLines
  import opened PinRuns

  // ------------------------------------------------------------ seen from the file alone

  /** The assignment of every reference to be pinned stands nowhere before the line it is
      read from. */
  predicate StandsFirst(lines: seq<Text>, rs: seq<Report>) {
    forall k :: 0 <= k < |rs| && Acts(rs[k]) ==> HitLine(lines, OldLine(rs[k])) == LastLine(lines, rs[k].key)
  }

  /** A line during the run: as it was, or rewritten as the source of one reference. */
  lemma {:induction false} LineDuring(lines: seq<Text>, rs: seq<Report>, n: nat, x: nat) returns (j: nat)
    requires n <= |rs| && Sources(lines, rs) && OwnUpTo(lines, rs, n) && x < |lines|
    ensures |LinesAfter(lines, rs[..n])| == |lines|
    ensures LinesAfter(lines, rs[..n])[x] == lines[x] ||
      (j < n && Acts(rs[j]) && x == Own(lines, rs[j]) &&
       LinesAfter(lines, rs[..n])[x] == ReplaceFirst(lines[x], OldLine(rs[j]), NewLine(rs[j])))
    decreases n
  {
    hide HitLine, ReplaceFirst, Acts, LastLine, FromLine, Strip, OldLine, NewLine, LinesAfter;
    if n == 0 {
      assert rs[..0] == [];
      NothingAfter(lines);
      j := 0;
    } else {
      LinesAfterStep(lines, rs, n - 1);
      j := LineDuring(lines, rs, n - 1, x);
      OneChanged(LinesAfter(lines, rs[..n - 1]), rs[n - 1], x);
      if LinesAfter(lines, rs[..n])[x] != LinesAfter(lines, rs[..n - 1])[x] {
        assert OwnHit(lines, rs, n - 1);
        OwnRewritten(lines, rs, n - 1, n - 1);
        j := n - 1;
      }
    }
  }

  /** A text that stands in a line stands between its outer spaces. */
  lemma {:induction false} WithinEnds(u: Text, m: Text, v: Text, w: Text, k: nat)
    requires AllSpace(u) && AllSpace(v) && Tight(w) && At(u + m + v, w, k)
    ensures k >= |u| && k + |w| <= |u| + |m|
  {
    hide IsSpace;
    var t := u + m + v;
    assert forall i :: k <= i < k + |w| ==> t[i] == t[k..k + |w|][i - k];
    assert forall i :: 0 <= i < |u| ==> t[i] == u[i];
    assert forall i :: |u| + |m| <= i < |t| ==> t[i] == v[i - |u| - |m|];
  }

  lemma AtInside(u: Text, m: Text, v: Text, w: Text, k: nat)
    requires k >= |u| && k + |w| <= |u| + |m|
    ensures At(u + m + v, w, k) <==> At(m, w, k - |u|)
  {
    assert (u + m + v)[k..k + |w|] == m[k - |u|..k - |u| + |w|];
  }

  /** Putting `@` and a digest behind an assignment brings no other assignment about. */
  lemma {:induction false} NotInDigest(m: Text, d: Text, w: Text, k: nat)
    requires IsDigest(d) && AT !in w && EQUALS in w && At(m + [AT] + d, w, k)
    ensures k + |w| <= |m|
  {
    var t := m + [AT] + d;
    DigestPlain(d);
    assert forall i :: k <= i < k + |w| ==> t[i] == w[i - k] by {
      assert forall i :: k <= i < k + |w| ==> t[i] == t[k..k + |w|][i - k];
    }
    var e :| 0 <= e < |w| && w[e] == EQUALS;
    assert t[|m|] == AT;
    assert forall i :: |m| < i < |t| ==> t[i] == d[i - |m| - 1] && d[i - |m| - 1] in d;
    assert t[k + e] == EQUALS;
    assert forall i :: k <= i < k + |w| ==> t[i] in w;
  }

  lemma {:induction false} PinnedHolds(line: Text, r: Report, w: Text)
    requires FromLine(r) && Acts(r) && Strip(line) == OldLine(r) && AT !in OldLine(r)
    requires Tight(w) && AT !in w && EQUALS in w
    ensures Find(ReplaceFirst(line, OldLine(r), NewLine(r)), w).Some? <==> Find(line, w).Some?
  {
    hide Strip, IsSpace, Find, ReplaceFirst, Acts, OneLine, EndsWith, Tight, IsDigest, Base;
    var was := OldLine(r);
    var u, v := FoundInOwn(line, was);
    ReplaceAt(line, was, NewLine(r), |u|);
    assert line[..|u|] == u && line[|u| + |was|..] == v;
    UnpinnedGrows(r);
    var now := u + (was + [AT] + r.detail) + v;
    forall k: nat
      ensures At(line, w, k) <==> At(now, w, k)
    {
      AtEither(u, was, r.detail, v, w, k);
    }
  }

  lemma {:induction false} AtEither(u: Text, m: Text, d: Text, v: Text, w: Text, k: nat)
    requires AllSpace(u) && AllSpace(v) && IsDigest(d) && Tight(w) && AT !in w && EQUALS in w
    ensures At(u + m + v, w, k) <==> At(u + (m + [AT] + d) + v, w, k)
  {
    hide IsSpace, At, Tight, IsDigest;
    var longer := m + [AT] + d;
    if At(u + m + v, w, k) {
      WithinEnds(u, m, v, w, k);
    }
    if At(u + longer + v, w, k) {
      WithinEnds(u, longer, v, w, k);
      AtInside(u, longer, v, w, k);
      NotInDigest(m, d, w, k - |u|);
    }
    if k >= |u| && k + |w| <= |u| + |m| {
      AtInside(u, m, v, w, k);
      AtInside(u, longer, v, w, k);
      AtInside([], m, [AT] + d, w, k - |u|);
      assert [] + m + ([AT] + d) == longer;
    }
  }

  lemma UnpinnedGrows(r: Report)
    requires AT !in OldLine(r)
    ensures NewLine(r) == OldLine(r) + [AT] + r.detail
  {
    assert forall c :: c in r.ref ==> c in OldLine(r);
    assert r.ref[..|r.ref|] == r.ref;
    FirstIs(r.ref, AT, |r.ref|);
  }

  /** No reference to be pinned has an `@` in its assignment. */
  predicate Unpinned(rs: seq<Report>) {
    forall k :: 0 <= k < |rs| && Acts(rs[k]) ==> AT !in OldLine(rs[k])
  }

  lemma {:induction false} SameHit(lines: seq<Text>, rs: seq<Report>, k: nat)
    requires Sources(lines, rs) && Unpinned(rs) && k < |rs| && Acts(rs[k]) && OwnUpTo(lines, rs, k)
    ensures OwnHit(lines, rs, k) <==> HitLine(lines, OldLine(rs[k])) == LastLine(lines, rs[k].key)
  {
    hide HitLine, ReplaceFirst, Acts, LastLine, Strip, OldLine, NewLine, LinesAfter, Find, Tight, OneLine, EndsWith, OwnUpTo;
    var now, w := LinesAfter(lines, rs[..k]), OldLine(rs[k]);
    var x := Own(lines, rs[k]);
    OwnRewritten(lines, rs, k, k);
    var u, v := FoundInOwn(lines[x], w);
    HasEquals(rs[k]);
    forall i | 0 <= i < x
      ensures Find(now[i], w).Some? <==> Find(lines[i], w).Some?
    {
      var j := LineDuring(lines, rs, k, i);
      if now[i] != lines[i] {
        PinnedHolds(lines[i], rs[j], w);
      }
    }
    if OwnHit(lines, rs, k) {
      HitLineIs(lines, w, x);
    }
    if HitLine(lines, w) == Some(x) {
      HitLineIs(now, w, x);
    }
  }

  lemma HasEquals(r: Report)
    ensures EQUALS in OldLine(r)
  {
    assert OldLine(r)[|r.key|] == EQUALS;
  }

  lemma {:induction false} FirstMeansOwn(lines: seq<Text>, rs: seq<Report>, n: nat)
    requires Sources(lines, rs) && Unpinned(rs) && n <= |rs|
    requires StandsFirst(lines, rs) || HitsOwn(lines, rs)
    ensures OwnUpTo(lines, rs, n)
    ensures forall k :: 0 <= k < n && Acts(rs[k]) ==> HitLine(lines, OldLine(rs[k])) == LastLine(lines, rs[k].key)
    decreases n
  {
    hide Sources, HitLine, Acts, LastLine, OldLine, OwnHit, Unpinned;
    if n > 0 {
      FirstMeansOwn(lines, rs, n - 1);
      if Acts(rs[n - 1]) {
        SameHit(lines, rs, n - 1);
      }
    }
  }

  /** For references that are not pinned yet, the condition can be read off the file as it is:
      a second run rewrites nothing exactly if no assignment to be pinned stands anywhere,
      in a comment or in a longer one, before the line it is read from. */
  lemma {:induction false} SecondRunOnFile(registry: Registry, text: Text)
    requires Faithful(registry) && Unpinned(ReportsOf(registry, text))
    ensures var once := RunPin(registry, text);
      PinCount(once, ReportsOf(registry, once)) == 0 <==> StandsFirst(Lines(text), ReportsOf(registry, text))
  {
    hide Lines, RunPin, PinCount, Acts, Faithful, LinesAfter, Unpinned, Sources, ReportsOf, OwnHit;
    SecondRunExact(registry, text);
    ReadCounts(registry, text);
    var lines, rs := Lines(text), ReportsOf(registry, text);
    if StandsFirst(lines, rs) || HitsOwn(lines, rs) {
      FirstMeansOwn(lines, rs, |rs|);
    }
  }

  // ------------------------------------------------------------ one reference

  /** Pinning one reference rewrites the line it is read from, and only that, exactly when no
      earlier line of the file holds the assignment anywhere in it: a comment, or a longer key
      that ends the same, is rewritten instead. */
  lemma {:induction false} PinOneExact(registry: Registry, text: Text, k: nat)
    requires Faithful(registry) && k < |ReportsOf(registry, text)| && Acts(ReportsOf(registry, text)[k])
    ensures LastLine(Lines(text), ReportsOf(registry, text)[k].key).Some?
    ensures var lines, r := Lines(text), ReportsOf(registry, text)[k];
      var x := Own(lines, r);
      Lines(PinOne(text, r)) == lines[x := ReplaceFirst(lines[x], OldLine(r), NewLine(r))] <==>
        forall i :: 0 <= i < x ==> Find(lines[i], OldLine(r)).None?
  {
    hide Lines, RefsOf, Acts, LastLine, Strip, OldLine, NewLine, OneLine, Tight, EndsWith, ReportOf, Faithful, Find, ReplaceFirst, PinOne, HitLine, ReportsOf;
    var lines, r := Lines(text), ReportsOf(registry, text)[k];
    ReadCounts(registry, text);
    LinesOfOne(text, r);
    var x := Own(lines, r);
    var u, v := FoundInOwn(lines[x], OldLine(r));
    ReplaceChanges(lines[x], OldLine(r), NewLine(r));
    ActsChanges(r);
    if HitLine(lines, OldLine(r)) != Some(x) {
      var h := HitLine(lines, OldLine(r)).value;
      assert PinLine(lines, r)[x] == lines[x];
    }
    if forall i :: 0 <= i < x ==> Find(lines[i], OldLine(r)).None? {
      HitLineIs(lines, OldLine(r), x);
    }
  }

  lemma ActsChanges(r: Report)
    ensures Acts(r) ==> NewLine(r) != OldLine(r)
  {
  }

  lemma ReplaceChanges(t: Text, was: Text, now: Text)
    requires Find(t, was).Some?
    ensures ReplaceFirst(t, was, now) == t ==> now == was
  {
    hide Find;
    var k := Find(t, was).value;
    ReplaceAt(t, was, now, k);
    var r := ReplaceFirst(t, was, now);
    if r == t {
      assert |now| == |was|;
      assert r[k..k + |now|] == now;
      assert t[k..k + |was|] == was;
    }
  }

  // ------------------------------------------------------------ a file that is rewritten again

  const A_KEY: Text := Lit("A_IMAGE")

  /** `A_IMAGE=a`, and the same commented out. */
  const ASSIGNMENT: Text := A_KEY + [EQUALS] + [97]
  const COPY: Text := [HASH] + ASSIGNMENT

  lemma CopyLines()
    ensures Lines(COPY + [10] + ASSIGNMENT) == [COPY, ASSIGNMENT]
    ensures Tight(ASSIGNMENT) && Tight(COPY) && OneLine(ASSIGNMENT) && OneLine(COPY)
  {
    hide A_KEY;
    KeyWord();
    assert forall i :: 0 <= i < |A_KEY| ==> ASSIGNMENT[i] == A_KEY[i];
    assert forall i :: 0 <= i < |ASSIGNMENT| ==> COPY[i + 1] == ASSIGNMENT[i];
    LinesCons(COPY, [10], ASSIGNMENT);
    OpenLine(ASSIGNMENT);
  }

  lemma CopyAssigned()
    ensures Assigned(COPY) == None && Assigned(ASSIGNMENT) == Some(Field(A_KEY, Str([97])))
  {
    hide Lines, A_KEY, OneLine;
    CopyLines();
    StripTight(COPY);
    StripTight(ASSIGNMENT);
    KeyWord();
    assert ASSIGNMENT[..7] == A_KEY && ASSIGNMENT[8..] == [97] && ASSIGNMENT[7] == EQUALS;
    FirstIs(ASSIGNMENT, EQUALS, 7);
  }

  lemma KeyWord()
    ensures |A_KEY| == 7 && EQUALS !in A_KEY && EndsWith(A_KEY, IMAGE_SUFFIX) && A_KEY[0] != HASH
    ensures !IsSpace(A_KEY[0]) && OneLine(A_KEY)
  {
    assert forall i :: 0 <= i < 7 ==> A_KEY[i] == "A_IMAGE"[i] as int;
    assert A_KEY[1..] == IMAGE_SUFFIX;
  }

  lemma CopyRefs()
    ensures RefsOf([COPY, ASSIGNMENT]) == [Field(A_KEY, Str([97]))]
    ensures LastLine([COPY, ASSIGNMENT], A_KEY) == Some(1)
  {
    hide Assigned, A_KEY;
    CopyAssigned();
    var lines := [COPY, ASSIGNMENT];
    assert lines[..1] == [COPY] && [COPY][..0] == [];
    assert RefsOf([]) == [] && RefsOf([COPY]) == [];
    LastLineIs(lines, A_KEY, 1);
  }

  lemma CopyHit()
    ensures HitLine([COPY, ASSIGNMENT], ASSIGNMENT) == Some(0)
  {
    hide A_KEY;
    assert At(COPY, ASSIGNMENT, 1) by {
      assert COPY[1..1 + |ASSIGNMENT|] == ASSIGNMENT;
    }
    HitLineIs([COPY, ASSIGNMENT], ASSIGNMENT, 0);
  }

  lemma PlainTagActs(registry: Registry)
    requires registry(ParseRef([97])).Some? && IsDigest(registry(ParseRef([97])).value)
    ensures var r := ReportOf(registry, Field(A_KEY, Str([97])));
      Acts(r) && OldLine(r) == A_KEY + [EQUALS] + [97]
  {
    hide ParseRef, A_KEY;
    FirstIs([97], AT, 1);
    assert [97][..1] == [97];
    AfterLastIs([97], COLON, 0);
    assert [97][0..] == [97];
    NotMoving();
  }

  lemma NotMoving()
    ensures !IsMoving([97])
  {
  }

  /** The failing input: a commented copy above the assignment takes every pin. The first run
      rewrites the comment, and so does the second, once more. */
  lemma {:induction false} CopyIsPinnedAgain(registry: Registry)
    requires Faithful(registry) && registry(ParseRef([97])).Some? && SHA256 <= registry(ParseRef([97])).value
    ensures var once := RunPin(registry, COPY + [10] + ASSIGNMENT);
      RunPin(registry, once) != once
  {
    hide Lines, RefsOf, Acts, A_KEY, HitLine, LastLine, OldLine, NewLine, ReportOf, PinAll, PinCount, Faithful, IsDigest, Tight, OneLine, LinesAfter;
    var file := COPY + [10] + ASSIGNMENT;
    var lines, rs := Lines(file), ReportsOf(registry, file);
    CopyLines();
    CopyRefs();
    CopyHit();
    DigestAnswered(registry);
    PlainTagActs(registry);
    assert rs == [ReportOf(registry, Field(A_KEY, Str([97])))];
    NothingAfter(lines);
    assert rs[..0] == [];
    KeyIsRefs(registry, lines, 0);
    assert !OwnHit(lines, rs, 0);
    assert !HitsOwn(lines, rs);
    SecondRunExact(registry, file);
    ReadCounts(registry, file);
    var once := RunPin(registry, file);
    OneReport(registry, once);
  }

  lemma DigestAnswered(registry: Registry)
    requires Faithful(registry) && registry(ParseRef([97])).Some? && SHA256 <= registry(ParseRef([97])).value
    ensures IsDigest(registry(ParseRef([97])).value)
  {
    hide IsDigest, ParseRef;
  }

  lemma {:induction false} OneReport(registry: Registry, text: Text)
    requires |ReportsOf(registry, text)| == 1 && PinCount(text, ReportsOf(registry, text)) > 0
    ensures RunPin(registry, text) != text
  {
    hide Lines, RefsOf, OldLine, NewLine, ReportOf, Find, ReplaceFirst, Pins;
    var rs := ReportsOf(registry, text);
    assert rs[..0] == [];
    assert PinAll(text, rs[..0]) == text && PinCount(text, rs[..0]) == 0;
    ReplaceChanges(text, OldLine(rs[0]), NewLine(rs[0]));
  }
}
