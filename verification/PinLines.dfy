/** A run of `--pin` (tools/verify-images.py) seen line by line: where each reference is read
    from, and that rewriting an assignment anywhere leaves every line its own key. */
module PinLines {
  import opened Texts
  import opened Json
  import opened AuditLines
  import opened ImageRefs
  import opened TextSearch
  import opened ImagePins

  /** `sha256:` and lower-case hexadecimal digits. */
  predicate IsDigest(d: Text) {
    && SHA256 <= d
    && forall i :: 7 <= i < |d| ==> 48 <= d[i] <= 57 || 97 <= d[i] <= 102
  }

  /** The registries answer with digests, and what is asked for by its digest is that digest. */
  ghost predicate Faithful(registry: Registry) {
    forall r: Ref :: registry(r).Some? && SHA256 <= registry(r).value ==>
      IsDigest(registry(r).value) && registry(r.(tag := registry(r).value)) == registry(r)
  }

  // ------------------------------------------------------------ lines and their keys

  /** The key a line assigns, if it assigns one. */
  function KeyOf(line: Text): Option<Text> {
    match Assigned(line)
    case Some(f) => Some(f.key)
    case None => None
  }

  /** A word that starts and ends with no space. */
  predicate Tight(w: Text) {
    w != [] && !IsSpace(w[0]) && !IsSpace(w[|w| - 1])
  }

  lemma StripTightEnds(t: Text)
    ensures Strip(t) != [] ==> Tight(Strip(t))
  {
    hide Strip;
    var i, j := StripShape(t);
  }

  /** What an assigning line says, and how it reads. */
  lemma AssignedShape(line: Text)
    ensures Assigned(line).Some? ==>
      var f := Assigned(line).value;
      && f.value.Str? && f.value.s != [] && f.key != [] && EQUALS !in f.key && EndsWith(f.key, IMAGE_SUFFIX)
      && Strip(line) == f.key + [EQUALS] + f.value.s && Tight(Strip(line)) && f.key[0] != HASH
  {
    hide Strip, IsSpace;
    StripTightEnds(line);
    var s := Strip(line);
    var i := First(s, EQUALS);
    assert |IMAGE_SUFFIX| == 6;
    assert i < |s| ==> s == s[..i] + [EQUALS] + s[i + 1..];
  }

  lemma {:induction false} FirstInFront(p: Text, x: Text, c: CodePoint)
    requires First(p, c) < |p|
    ensures First(p + x, c) == First(p, c)
  {
    var i := First(p, c);
    assert (p + x)[..i] == p[..i] && (p + x)[i] == p[i];
    FirstIs(p + x, c, i);
  }

  lemma {:induction false} StripLeftAround(u: Text, w: Text)
    requires w != [] && !IsSpace(w[0])
    ensures StripLeft(u + w) == StripLeft(u) + w
  {
    hide IsSpace;
    if u == [] {
      assert u + w == w;
    } else {
      assert (u + w)[1..] == u[1..] + w;
      StripLeftAround(u[1..], w);
    }
  }

  lemma {:induction false} StripRightAround(w: Text, v: Text)
    requires w != [] && !IsSpace(w[|w| - 1])
    ensures StripRight(w + v) == w + StripRight(v)
  {
    hide IsSpace;
    if v == [] {
      assert w + v == w;
    } else {
      assert (w + v)[..|w + v| - 1] == w + v[..|v| - 1];
      StripRightAround(w, v[..|v| - 1]);
    }
  }

  lemma StripAround(u: Text, w: Text, v: Text)
    requires Tight(w)
    ensures Strip(u + w + v) == StripLeft(u) + w + StripRight(v)
  {
    hide StripLeft, StripRight;
    assert u + w + v == u + (w + v);
    StripLeftAround(u, w + v);
    assert StripLeft(u) + (w + v) == (StripLeft(u) + w) + v;
    StripRightAround(StripLeft(u) + w, v);
  }

  /** Rewriting the value of an assignment somewhere in a line leaves the line's own key. */
  lemma {:induction false} KeyKept(u: Text, key: Text, value: Text, now: Text, v: Text)
    requires key != [] && EQUALS !in key && value != [] && now != []
    requires Tight(key + [EQUALS] + value) && Tight(key + [EQUALS] + now)
    ensures KeyOf(u + (key + [EQUALS] + value) + v) == KeyOf(u + (key + [EQUALS] + now) + v)
  {
    hide Strip, StripLeft, StripRight, IsSpace, EndsWith, Tight, First;
    StripAround(u, key + [EQUALS] + value, v);
    StripAround(u, key + [EQUALS] + now, v);
    var p := StripLeft(u) + key + [EQUALS];
    assert p[|p| - 1] == EQUALS;
    FirstPresent(p, EQUALS);
    FirstInFront(p, value + StripRight(v), EQUALS);
    FirstInFront(p, now + StripRight(v), EQUALS);
    assert StripLeft(u) + (key + [EQUALS] + value) + StripRight(v) == p + (value + StripRight(v));
    assert StripLeft(u) + (key + [EQUALS] + now) + StripRight(v) == p + (now + StripRight(v));
    var i := First(p, EQUALS);
    assert (p + (value + StripRight(v)))[..i] == p[..i] == (p + (now + StripRight(v)))[..i];
  }

  predicate SameKeys(a: seq<Text>, b: seq<Text>) {
    |a| == |b| && forall i :: 0 <= i < |a| ==> KeyOf(a[i]) == KeyOf(b[i])
  }

  /** The last line that assigns the key. */
  function LastLine(lines: seq<Text>, key: Text): (r: Option<nat>)
    ensures r.Some? ==> r.value < |lines| && KeyOf(lines[r.value]) == Some(key)
    ensures r.Some? ==> forall i :: r.value < i < |lines| ==> KeyOf(lines[i]) != Some(key)
    ensures r.None? ==> forall i :: 0 <= i < |lines| ==> KeyOf(lines[i]) != Some(key)
  {
    if lines == [] then None
    else if KeyOf(lines[|lines| - 1]) == Some(key) then Some(|lines| - 1)
    else LastLine(lines[..|lines| - 1], key)
  }

  lemma LastLineIs(lines: seq<Text>, key: Text, l: nat)
    requires l < |lines| && KeyOf(lines[l]) == Some(key)
    requires forall i :: l < i < |lines| ==> KeyOf(lines[i]) != Some(key)
    ensures LastLine(lines, key) == Some(l)
  {
    hide KeyOf, LastLine;
  }

  lemma LastLineSame(a: seq<Text>, b: seq<Text>, key: Text)
    requires SameKeys(a, b)
    ensures LastLine(a, key) == LastLine(b, key)
  {
    hide KeyOf, LastLine;
    if LastLine(a, key).Some? {
      LastLineIs(b, key, LastLine(a, key).value);
    }
  }

  // ------------------------------------------------------------ what is read

  lemma {:induction false} RefsDistinct(lines: seq<Text>)
    ensures DistinctKeys(RefsOf(lines))
  {
    hide Assigned;
    if lines != [] {
      RefsDistinct(lines[..|lines| - 1]);
      if Assigned(lines[|lines| - 1]).Some? {
        PutDistinct(RefsOf(lines[..|lines| - 1]), Assigned(lines[|lines| - 1]).value);
      }
    }
  }

  function ValueOf(line: Text): Value
    requires Assigned(line).Some?
  {
    Assigned(line).value.value
  }

  /** The value read for a key is the one on the last line assigning it. */
  lemma {:induction false} LookupIsLast(lines: seq<Text>, key: Text)
    ensures Lookup(RefsOf(lines), key).Some? <==> LastLine(lines, key).Some?
    ensures LastLine(lines, key).Some? ==>
      Lookup(RefsOf(lines), key) == Some(ValueOf(lines[LastLine(lines, key).value]))
  {
    hide Assigned, Put, Lookup;
    if lines != [] {
      var front, last := lines[..|lines| - 1], lines[|lines| - 1];
      LookupIsLast(front, key);
      if Assigned(last).Some? {
        LookupPut(RefsOf(front), Assigned(last).value, key);
      }
    }
  }

  predicate SameFieldKeys(a: seq<Field>, b: seq<Field>) {
    |a| == |b| && forall i :: 0 <= i < |a| ==> a[i].key == b[i].key
  }

  lemma {:induction false} PutSameKeys(a: seq<Field>, b: seq<Field>, f: Field, g: Field)
    requires SameFieldKeys(a, b) && f.key == g.key
    ensures SameFieldKeys(Put(a, f), Put(b, g))
  {
    if a != [] {
      PutSameKeys(a[1..], b[1..], f, g);
    }
  }

  lemma {:induction false} RefsSameKeys(a: seq<Text>, b: seq<Text>)
    requires SameKeys(a, b)
    ensures SameFieldKeys(RefsOf(a), RefsOf(b))
  {
    hide Assigned, Put;
    if a != [] {
      var n := |a| - 1;
      RefsSameKeys(a[..n], b[..n]);
      assert KeyOf(a[n]) == KeyOf(b[n]);
      if Assigned(a[n]).Some? {
        PutSameKeys(RefsOf(a[..n]), RefsOf(b[..n]), Assigned(a[n]).value, Assigned(b[n]).value);
      }
    }
  }

  // ------------------------------------------------------------ one report on the lines

  /** What holds of the report of a reference that was read from a line. */
  predicate FromLine(r: Report) {
    && r.key != [] && EQUALS !in r.key && EndsWith(r.key, IMAGE_SUFFIX) && r.key[0] != HASH && r.ref != []
    && Tight(OldLine(r)) && OneLine(OldLine(r))
    && (Acts(r) ==> IsDigest(r.detail))
  }

  lemma DigestPlain(d: Text)
    requires IsDigest(d)
    ensures |d| >= 7 && OneLine(d) && !IsSpace(d[|d| - 1]) && AT !in d && EQUALS !in d
  {
    assert |SHA256| == 7 && forall i :: 0 <= i < 7 ==> d[i] == SHA256[i];
    assert forall i :: 0 <= i < 7 ==> SHA256[i] == "sha256:"[i] as int;
  }

  lemma NewLineTight(r: Report)
    requires FromLine(r) && Acts(r)
    ensures Tight(NewLine(r)) && OneLine(NewLine(r)) && Pinned(r.ref, r.detail) != []
  {
    hide Acts, IsDigest, IsSpace, IsBreak;
    DigestPlain(r.detail);
    var base := Base(r.ref);
    assert NewLine(r) == r.key + [EQUALS] + base + [AT] + r.detail;
    assert OldLine(r)[0] == r.key[0];
    assert forall i :: 0 <= i < |r.key| ==> r.key[i] == OldLine(r)[i];
    assert forall i :: 0 <= i < |base| ==> base[i] == OldLine(r)[|r.key| + 1 + i];
    AtPlain();
  }

  lemma AtPlain()
    ensures !IsBreak(AT) && !IsBreak(EQUALS)
  {
  }

  function PinLine(lines: seq<Text>, r: Report): seq<Text> {
    if Acts(r) then ReplaceInLines(lines, OldLine(r), NewLine(r)) else lines
  }

  function LinesAfter(lines: seq<Text>, rs: seq<Report>): seq<Text>
    decreases rs
  {
    if rs == [] then lines else PinLine(LinesAfter(lines, rs[..|rs| - 1]), rs[|rs| - 1])
  }

  predicate AllFromLines(rs: seq<Report>) {
    forall i :: 0 <= i < |rs| ==> FromLine(rs[i])
  }

  lemma LinesOfOne(t: Text, r: Report)
    requires FromLine(r)
    ensures Lines(PinOne(t, r)) == PinLine(Lines(t), r)
    ensures Rewrites(t, r) <==> Acts(r) && HitLine(Lines(t), OldLine(r)).Some?
  {
    hide Lines, Find, HitLine, OldLine, NewLine, Pins, OneLine, ReplaceFirst, IsSpace;
    if Acts(r) {
      NewLineTight(r);
      LinesOfReplaced(t, OldLine(r), NewLine(r));
    }
  }

  lemma {:induction false} LinesOfAll(t: Text, rs: seq<Report>)
    requires AllFromLines(rs)
    ensures Lines(PinAll(t, rs)) == LinesAfter(Lines(t), rs)
    decreases rs
  {
    hide Lines, PinOne, PinLine, FromLine;
    if rs != [] {
      var front := rs[..|rs| - 1];
      assert forall i :: 0 <= i < |front| ==> front[i] == rs[i];
      LinesOfAll(t, front);
      LinesOfOne(PinAll(t, front), rs[|rs| - 1]);
    }
  }

  /** What one report changes is one line, the first that holds its assignment. */
  lemma OneChanged(lines: seq<Text>, r: Report, x: nat)
    requires x < |lines|
    ensures |PinLine(lines, r)| == |lines|
    ensures PinLine(lines, r)[x] != lines[x] ==> Acts(r) && HitLine(lines, OldLine(r)) == Some(x)
    ensures PinLine(lines, r)[x] == lines[x] ||
      PinLine(lines, r)[x] == ReplaceFirst(lines[x], OldLine(r), NewLine(r))
  {
    hide HitLine, Acts, ReplaceFirst, OldLine, NewLine;
  }

  lemma {:induction false} StepKeepsKeys(lines: seq<Text>, r: Report)
    requires FromLine(r)
    ensures SameKeys(lines, PinLine(lines, r))
  {
    hide HitLine, Acts, ReplaceFirst, OldLine, NewLine, KeyOf, FromLine;
    if Acts(r) && HitLine(lines, OldLine(r)).Some? {
      var h := HitLine(lines, OldLine(r)).value;
      RewriteKeepsKey(lines[h], r);
    }
  }

  lemma {:induction false} RewriteKeepsKey(line: Text, r: Report)
    requires FromLine(r) && Acts(r) && Find(line, OldLine(r)).Some?
    ensures KeyOf(ReplaceFirst(line, OldLine(r), NewLine(r))) == KeyOf(line)
  {
    hide Find, KeyOf, Tight, OneLine, Acts, EndsWith, ReplaceFirst, Pinned;
    var k := Find(line, OldLine(r)).value;
    NewLineTight(r);
    ReplaceAt(line, OldLine(r), NewLine(r), k);
    KeyKept(line[..k], r.key, r.ref, Pinned(r.ref, r.detail), line[k + |OldLine(r)|..]);
  }

  lemma {:induction false} AfterKeepsKeys(lines: seq<Text>, rs: seq<Report>)
    requires AllFromLines(rs)
    ensures SameKeys(lines, LinesAfter(lines, rs))
    decreases rs
  {
    hide PinLine, FromLine, KeyOf;
    if rs != [] {
      var front := rs[..|rs| - 1];
      assert forall i :: 0 <= i < |front| ==> front[i] == rs[i];
      AfterKeepsKeys(lines, front);
      StepKeepsKeys(LinesAfter(lines, front), rs[|rs| - 1]);
    }
  }

  // ------------------------------------------------------------ reports and the lines they come from

  /** The report of each key comes from the last line assigning it. */
  ghost predicate Sources(lines: seq<Text>, rs: seq<Report>) {
    && AllFromLines(rs)
    && (forall k :: 0 <= k < |rs| ==>
          && LastLine(lines, rs[k].key).Some?
          && Strip(lines[LastLine(lines, rs[k].key).value]) == OldLine(rs[k]))
    && (forall j, k :: 0 <= j < k < |rs| ==> rs[j].key != rs[k].key)
  }

  lemma {:induction false} ReportsSources(registry: Registry, lines: seq<Text>)
    requires Faithful(registry) && forall i :: 0 <= i < |lines| ==> OneLine(lines[i])
    ensures Sources(lines, Reports(registry, RefsOf(lines)))
  {
    hide Assigned, LastLine, Strip, OneLine, Tight, ReportOf, Faithful, FromLine, OldLine;
    var refs := RefsOf(lines);
    var rs := Reports(registry, refs);
    RefsDistinct(lines);
    forall k | 0 <= k < |rs|
      ensures rs[k].key == refs[k].key && FromLine(rs[k])
      ensures LastLine(lines, rs[k].key).Some? && Strip(lines[LastLine(lines, rs[k].key).value]) == OldLine(rs[k])
    {
      LookupFinds(refs, k);
      LookupIsLast(lines, refs[k].key);
      ReportFromLine(registry, lines[LastLine(lines, refs[k].key).value], refs[k]);
    }
  }

  lemma ReportFromLine(registry: Registry, line: Text, f: Field)
    requires Faithful(registry) && OneLine(line) && Assigned(line) == Some(f)
    ensures var r := ReportOf(registry, f); FromLine(r) && r.key == f.key && Strip(line) == OldLine(r)
  {
    hide Assigned, Strip, OneLine, Tight, IsDigest, EndsWith, ParseRef, LeftMoving;
    AssignedShape(line);
    StripOneLine(line);
    var r := ReportOf(registry, f);
    if Acts(r) {
      assert registry(ParseRef(r.ref)).Some?;
    }
  }

  lemma StripOneLine(line: Text)
    requires OneLine(line)
    ensures OneLine(Strip(line))
  {
    hide Strip, IsBreak;
    var i, j := StripShape(line);
  }
}
