/** Container image references (tools/verify-images.py): splitting one into registry,
    repository and tag or digest, and pinning it. */
module ImageRefs {
  import opened Texts

  const AT: CodePoint := 64
  const SLASH: CodePoint := 47
  const COLON: CodePoint := 58
  const DOT: CodePoint := 46
  const DOCKER_HUB: Text := Lit("registry-1.docker.io")
  const LIBRARY: Text := Lit("library/")
  const LATEST: Text := Lit("latest")
  const LOCALHOST: Text := Lit("localhost")

  // ------------------------------------------------------------ splitting

  /** Where `c` first stands, or the length. */
  function First(s: Text, c: CodePoint): (i: nat)
    ensures i <= |s| && c !in s[..i] && (i < |s| ==> s[i] == c)
  {
    if s == [] || s[0] == c then 0
    else
      assert s[..1 + First(s[1..], c)] == [s[0]] + s[1..][..First(s[1..], c)];
      1 + First(s[1..], c)
  }

  /** One past where `c` last stands, or 0. */
  function AfterLast(s: Text, c: CodePoint): (i: nat)
    ensures i <= |s| && c !in s[i..] && (i > 0 ==> s[i - 1] == c)
  {
    if s == [] || s[|s| - 1] == c then |s|
    else
      var front := s[..|s| - 1];
      var i := AfterLast(front, c);
      assert s[i..] == front[i..] + [s[|s| - 1]];
      i
  }

  lemma {:induction false} FirstIs(s: Text, c: CodePoint, i: nat)
    requires i <= |s| && c !in s[..i] && (i < |s| ==> s[i] == c)
    ensures First(s, c) == i
  {
    if i > 0 {
      assert s[..i] == [s[0]] + s[1..][..i - 1];
      FirstIs(s[1..], c, i - 1);
    }
  }

  lemma {:induction false} AfterLastIs(s: Text, c: CodePoint, i: nat)
    requires i <= |s| && c !in s[i..] && (i > 0 ==> s[i - 1] == c)
    ensures AfterLast(s, c) == i
  {
    if i < |s| {
      assert s[i..] == s[..|s| - 1][i..] + [s[|s| - 1]];
      AfterLastIs(s[..|s| - 1], c, i);
    }
  }

  lemma {:induction false} AfterLastReaches(s: Text, c: CodePoint, i: nat)
    requires i < |s| && s[i] == c
    ensures AfterLast(s, c) > i
  {
    if s[|s| - 1] != c {
      AfterLastReaches(s[..|s| - 1], c, i);
    }
  }

  /** `s.rsplit("/", 1)[-1]` */
  function LastSegment(s: Text): Text {
    s[AfterLast(s, SLASH)..]
  }

  /** A tag is written: a colon stands in the last segment. */
  predicate HasTag(s: Text) {
    COLON in LastSegment(s)
  }

  /** `s.rsplit(":", 1)[0]` */
  function Untagged(s: Text): Text
    requires HasTag(s)
  {
    assert COLON in s by {
      assert forall x :: x in LastSegment(s) ==> x in s;
    }
    s[..AfterLast(s, COLON) - 1]
  }

  /** `ref.split("@", 1)[0]` */
  function Base(ref: Text): Text {
    ref[..First(ref, AT)]
  }

  // ------------------------------------------------------------ parse_ref

  datatype Ref = Ref(host: Text, repository: Text, tag: Text)

  function NameOf(ref: Text): Text {
    if HasTag(Base(ref)) then Untagged(Base(ref)) else Base(ref)
  }

  function TagOf(ref: Text): Text {
    if AT in ref then ref[First(ref, AT) + 1..]
    else if HasTag(ref) then ref[AfterLast(ref, COLON)..]
    else LATEST
  }

  /** The first segment names a registry. */
  predicate LooksLikeHost(s: Text) {
    DOT in s || COLON in s || s == LOCALHOST
  }

  function Locate(name: Text): (Text, Text) {
    var i := First(name, SLASH);
    if i < |name| && LooksLikeHost(name[..i]) then (name[..i], name[i + 1..])
    else (DOCKER_HUB, if SLASH in name then name else LIBRARY + name)
  }

  /** `parse_ref` */
  function ParseRef(ref: Text): Ref {
    var (host, repository) := Locate(NameOf(ref));
    Ref(host, repository, TagOf(ref))
  }

  // ------------------------------------------------------------ round trip

  /** A reference by its parts; `None` for the host is Docker Hub. */
  datatype Image = Image(host: Option<Text>, repository: Text, tag: Option<Text>, digest: Option<Text>)

  predicate WellFormed(im: Image) {
    && AT !in im.repository && COLON !in im.repository
    && (im.host.Some? ==> LooksLikeHost(im.host.value) && SLASH !in im.host.value && AT !in im.host.value)
    && (im.host.None? ==> SLASH in im.repository ==> !LooksLikeHost(im.repository[..First(im.repository, SLASH)]))
    && (im.tag.Some? ==> SLASH !in im.tag.value && COLON !in im.tag.value && AT !in im.tag.value)
  }

  function FullName(im: Image): Text {
    if im.host.Some? then im.host.value + [SLASH] + im.repository else im.repository
  }

  function Tagged(im: Image): Text {
    FullName(im) + if im.tag.Some? then [COLON] + im.tag.value else []
  }

  function Print(im: Image): Text {
    Tagged(im) + if im.digest.Some? then [AT] + im.digest.value else []
  }

  lemma NameHasNoTag(im: Image)
    requires WellFormed(im)
    ensures !HasTag(FullName(im)) && AT !in FullName(im)
  {
    var n := FullName(im);
    if im.host.Some? {
      var k := |im.host.value| + 1;
      assert n[k - 1] == SLASH && n[k..] == im.repository;
      var i := AfterLast(n, SLASH);
      AfterLastReaches(n, SLASH, k - 1);
      assert n[i..] == im.repository[i - k..];
    }
  }

  lemma SegmentKeepsTag(n: Text, tag: Text)
    requires SLASH !in tag
    ensures LastSegment(n + [COLON] + tag) == LastSegment(n) + [COLON] + tag
  {
    var t := n + [COLON] + tag;
    var i := AfterLast(n, SLASH);
    assert t[i..] == n[i..] + [COLON] + tag;
    AfterLastIs(t, SLASH, i);
  }

  lemma TagSplits(n: Text, tag: Text)
    requires SLASH !in tag && COLON !in tag
    ensures HasTag(n + [COLON] + tag)
    ensures Untagged(n + [COLON] + tag) == n
    ensures (n + [COLON] + tag)[AfterLast(n + [COLON] + tag, COLON)..] == tag
  {
    hide LastSegment;
    var t := n + [COLON] + tag;
    SegmentKeepsTag(n, tag);
    assert (LastSegment(n) + [COLON] + tag)[|LastSegment(n)|] == COLON;
    assert t[|n|] == COLON && t[|n| + 1..] == tag;
    AfterLastIs(t, COLON, |n| + 1);
    assert t[..|n|] == n;
  }

  lemma BaseOfPrint(t: Text, digest: Option<Text>)
    requires AT !in t
    ensures var p := t + if digest.Some? then [AT] + digest.value else [];
      Base(p) == t && (AT in p <==> digest.Some?) && (digest.Some? ==> p[First(p, AT) + 1..] == digest.value)
  {
    var p := t + if digest.Some? then [AT] + digest.value else [];
    assert p[..|t|] == t;
    FirstIs(p, AT, |t|);
    if digest.Some? {
      assert p[|t|] == AT;
    }
  }

  lemma LocateName(im: Image)
    requires WellFormed(im)
    ensures Locate(FullName(im)) ==
      if im.host.Some? then (im.host.value, im.repository)
      else (DOCKER_HUB, if SLASH in im.repository then im.repository else LIBRARY + im.repository)
  {
    var n := FullName(im);
    if im.host.Some? {
      var h := im.host.value;
      assert n[..|h|] == h && n[|h|] == SLASH && n[|h| + 1..] == im.repository;
      FirstIs(n, SLASH, |h|);
    } else if First(n, SLASH) < |n| {
      assert SLASH in n;
    } else {
      assert n[..|n|] == n;
    }
  }

  lemma PartsOfTagged(im: Image)
    requires WellFormed(im)
    ensures AT !in Tagged(im)
    ensures NameOf(Tagged(im)) == FullName(im)
    ensures TagOf(Tagged(im)) == if im.tag.Some? then im.tag.value else LATEST
  {
    NameHasNoTag(im);
    var n, t := FullName(im), Tagged(im);
    if im.tag.Some? {
      assert t == n + [COLON] + im.tag.value;
      TagSplits(n, im.tag.value);
    } else {
      assert t == n;
    }
    BaseOfPrint(t, None);
    assert t + [] == t;
  }

  /** Printing a well-formed reference and parsing it gives back its host (Docker Hub when it
      has none), its repository (under `library/` when bare on Docker Hub), and its digest if
      it has one, else its tag, else `latest`. */
  lemma PrintThenParse(im: Image)
    requires WellFormed(im)
    ensures var r := ParseRef(Print(im));
      && r.host == (if im.host.Some? then im.host.value else DOCKER_HUB)
      && r.repository == (if im.host.Some? || SLASH in im.repository then im.repository else LIBRARY + im.repository)
      && r.tag == (if im.digest.Some? then im.digest.value else if im.tag.Some? then im.tag.value else LATEST)
  {
    hide Tagged, FullName, Locate, HasTag, Untagged;
    PartsOfTagged(im);
    BaseOfPrint(Tagged(im), im.digest);
    BaseOfPrint(Tagged(im), None);
    assert Tagged(im) + [] == Tagged(im);
    LocateName(im);
  }

  // ------------------------------------------------------------ pinning

  function Pinned(ref: Text, digest: Text): Text {
    Base(ref) + [AT] + digest
  }

  /** Pinning any reference at all changes neither the host nor the repository, fetches by the
      digest, and pinning twice is pinning once. */
  lemma PinKeepsImage(ref: Text, digest: Text)
    ensures var before, after := ParseRef(ref), ParseRef(Pinned(ref, digest));
      after.host == before.host && after.repository == before.repository && after.tag == digest
    ensures Pinned(Pinned(ref, digest), digest) == Pinned(ref, digest)
  {
    hide Locate, HasTag, Untagged;
    BaseOfPrint(Base(ref), Some(digest));
    assert Base(ref) + ([AT] + digest) == Pinned(ref, digest);
  }

  predicate IsMoving(tag: Text) {
    tag == LATEST || tag == Lit("main") || tag == Lit("master") || tag == Lit("edge") || tag == Lit("stable")
  }

  /** `base.rsplit(":", 1)[-1]` is one of the moving tags. */
  predicate LeftMoving(ref: Text) {
    var base := Base(ref);
    IsMoving(base[AfterLast(base, COLON)..])
  }

  /** A tag that is written out is left alone exactly when it is a moving one. */
  lemma WrittenTagExact(ref: Text)
    requires AT !in ref && HasTag(ref)
    ensures LeftMoving(ref) <==> IsMoving(ParseRef(ref).tag)
  {
    assert ref[..|ref|] == ref;
    FirstIs(ref, AT, |ref|);
  }

  /** A tag that is not written defaults to the moving `latest`, yet the reference is left
      alone only when it reads, as a whole, like a moving tag: every other one is pinned. */
  lemma UnwrittenTagPinned(ref: Text)
    requires AT !in ref && !HasTag(ref)
    ensures IsMoving(ParseRef(ref).tag)
    ensures LeftMoving(ref) <==> IsMoving(ref)
  {
    hide Locate;
    assert ref[..|ref|] == ref;
    FirstIs(ref, AT, |ref|);
    MovingIsPlain(ref);
    if COLON !in ref {
      assert ref[0..] == ref;
      AfterLastIs(ref, COLON, 0);
    } else {
      var i := AfterLast(ref, COLON);
      ColonBeforeSlash(ref);
      MovingIsPlain(ref[i..]);
    }
  }

  lemma MovingIsPlain(tag: Text)
    ensures IsMoving(tag) ==> COLON !in tag && SLASH !in tag
  {
  }

  /** A colon that is not in the last segment has a slash after it. */
  lemma ColonBeforeSlash(ref: Text)
    requires COLON in ref && !HasTag(ref)
    ensures AfterLast(ref, COLON) > 0 && SLASH in ref[AfterLast(ref, COLON)..]
  {
    var i := AfterLast(ref, COLON);
    var j := AfterLast(ref, SLASH);
    assert ref[0..] == ref;
    assert i > 0;
    assert forall k :: j <= k < |ref| ==> LastSegment(ref)[k - j] == ref[k];
    assert i - 1 < j;
    assert ref[i..][j - 1 - i] == SLASH;
  }

  /** A registry with a port and no tag: it stands for `latest`, and is pinned. */
  lemma PortIsPinned(host: Text, repository: Text)
    requires COLON in host && SLASH !in host && AT !in host
    requires COLON !in repository && AT !in repository
    ensures var ref := host + [SLASH] + repository;
      ParseRef(ref) == Ref(host, repository, LATEST) && !LeftMoving(ref)
  {
    hide ParseRef, HasTag, LeftMoving, IsMoving;
    var im := Image(Some(host), repository, None, None);
    var ref := host + [SLASH] + repository;
    assert Print(im) == ref;
    PrintThenParse(im);
    NoTagAfterSlash(host, repository);
    UnwrittenTagPinned(ref);
    MovingIsPlain(ref);
    assert ref[|host|] == SLASH;
  }

  lemma NoTagAfterSlash(host: Text, repository: Text)
    requires COLON !in repository
    ensures !HasTag(host + [SLASH] + repository)
  {
    var ref := host + [SLASH] + repository;
    AfterLastReaches(ref, SLASH, |host|);
    var tail := LastSegment(ref);
    assert forall x :: x in tail ==> x in repository by {
      assert forall k :: 0 <= k < |tail| ==> tail[k] == repository[k + AfterLast(ref, SLASH) - |host| - 1];
    }
  }

  /** As one such reference reads. */
  lemma LocalRegistryPinned()
    ensures var ref := Lit("localhost:5000") + [SLASH] + Lit("app");
      ParseRef(ref).tag == LATEST && !LeftMoving(ref)
  {
    hide ParseRef, LeftMoving;
    assert Lit("localhost:5000")[9] == COLON;
    PortIsPinned(Lit("localhost:5000"), Lit("app"));
  }

  /** The part in front of the first slash is a registry exactly if it has a dot or a colon, or
      is `localhost`; otherwise it belongs to the repository, on Docker Hub. */
  lemma HostExact(first: Text, rest: Text)
    requires SLASH !in first && AT !in first && COLON !in rest && AT !in rest
    ensures var r := ParseRef(first + [SLASH] + rest);
      if DOT in first || COLON in first || first == Lit("localhost") then r == Ref(first, rest, LATEST)
      else r == Ref(Lit("registry-1.docker.io"), first + [SLASH] + rest, LATEST)
  {
    hide ParseRef, Lit;
    var ref := first + [SLASH] + rest;
    if DOT in first || COLON in first || first == Lit("localhost") {
      var im := Image(Some(first), rest, None, None);
      assert Print(im) == ref;
      PrintThenParse(im);
    } else {
      var im := Image(None, ref, None, None);
      assert Print(im) == ref;
      assert ref[..|first|] == first && ref[|first|] == SLASH;
      FirstIs(ref, SLASH, |first|);
      PrintThenParse(im);
    }
  }
}
