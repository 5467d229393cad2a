/** What the hash chain of the audit log makes visible, and what it does not. */
module AuditChain {
  import opened Texts
  import opened Json
  import opened JsonOrder
  import opened JsonText
  import opened JsonCanonical
  import opened JsonParsed
  import opened AuditLines
  import opened StewardAudit

  // ------------------------------------------------------------ canonical form

  lemma PreviousKeyAgrees(a: Value, b: Value, s: Text)
    requires WellFormed(a) && WellFormed(b) && Same(a, b)
    requires Get(a, PREV) == Some(Str(s))
    ensures Get(b, PREV) == Some(Str(s))
  {
    var fs := a.fields;
    var i :| 0 <= i < |fs| && fs[i] == Field(PREV, Str(s));
    assert SameField(fs[i], b.fields);
    var j :| 0 <= j < |b.fields| && b.fields[j].key == PREV && Same(Str(s), b.fields[j].value);
    LookupFinds(b.fields, j);
  }

  lemma SameSymmetric(a: Value, b: Value)
    requires WellFormed(a) && WellFormed(b) && Same(a, b)
    ensures Same(b, a)
  {
    SortedDecidesSame(a, b);
    SortedDecidesSame(b, a);
  }

  ghost predicate AllWellFormed(entries: seq<Value>) {
    forall i :: 0 <= i < |entries| ==> WellFormed(entries[i])
  }

  ghost predicate SameEntries(a: seq<Value>, b: seq<Value>) {
    |a| == |b| && forall i :: 0 <= i < |a| ==> Same(a[i], b[i])
  }

  lemma SameDigest(hash: Hash, a: Value, b: Value)
    requires WellFormed(a) && WellFormed(b) && Same(a, b)
    ensures Digest(hash, a) == Digest(hash, b)
  {
    OrderInvisible(a, b, []);
  }

  lemma ReorderedLinks(hash: Hash, a: seq<Value>, b: seq<Value>)
    requires AllWellFormed(a) && AllWellFormed(b) && SameEntries(a, b) && Intact(hash, a)
    ensures Intact(hash, b)
  {
    forall i | 0 <= i < |b|
      ensures LinkedAt(hash, b, i)
    {
      hide Digest, Same, Get;
      assert LinkedAt(hash, a, i);
      if i > 0 {
        SameDigest(hash, a[i - 1], b[i - 1]);
      }
      assert Previous(hash, a, i) == Previous(hash, b, i);
      PreviousKeyAgrees(a[i], b[i], Previous(hash, a, i));
    }
  }

  /** Re-serialising entries with their keys in another order, at any depth, changes neither
      a digest nor what `verify` says. */
  lemma KeyOrderIrrelevant(hash: Hash, a: seq<Value>, b: seq<Value>)
    requires AllWellFormed(a) && AllWellFormed(b) && SameEntries(a, b)
    ensures forall i :: 0 <= i < |a| ==> Digest(hash, a[i]) == Digest(hash, b[i])
    ensures Intact(hash, a) <==> Intact(hash, b)
  {
    hide Digest, Intact, Same;
    forall i | 0 <= i < |a|
      ensures Digest(hash, a[i]) == Digest(hash, b[i])
      ensures Same(b[i], a[i])
    {
      SameDigest(hash, a[i], b[i]);
      SameSymmetric(a[i], b[i]);
    }
    if Intact(hash, a) {
      ReorderedLinks(hash, a, b);
    }
    if Intact(hash, b) {
      ReorderedLinks(hash, b, a);
    }
  }

  // ------------------------------------------------------------ tamper evidence

  predicate Collide(hash: Hash, a: Value, b: Value) {
    Dumps(a, []) != Dumps(b, []) && Digest(hash, a) == Digest(hash, b)
  }

  /** An entry of one log and an entry of the other with different texts and one digest. */
  predicate Collision(hash: Hash, a: seq<Value>, b: seq<Value>) {
    exists i, j :: 0 <= i < |a| && 0 <= j < |b| && Collide(hash, a[i], b[j])
  }

  /** An entry whose digest is the constant that only the first entry should carry. */
  predicate GenesisHit(hash: Hash, a: seq<Value>) {
    exists i :: 0 <= i < |a| && Digest(hash, a[i]) == GENESIS
  }

  lemma DigestsAgree(hash: Hash, a: Value, b: Value)
    requires WellFormed(a) && AllPairFree(a) && WellFormed(b) && AllPairFree(b)
    requires Digest(hash, a) == Digest(hash, b)
    ensures Same(a, b) || Collide(hash, a, b)
  {
    hide Dumps, Same;
    if Dumps(a, []) == Dumps(b, []) {
      CanonicalDecidesSame(a, b, []);
    }
  }

  lemma CleanPrefix(vs: seq<Value>, n: nat)
    requires n <= |vs| && CleanEntries(vs)
    ensures CleanEntries(vs[..n])
  {
  }

  /** Every prefix of an intact log is intact: cutting entries off the end leaves no trace. */
  lemma PrefixIntact(hash: Hash, entries: seq<Value>, n: nat)
    requires n <= |entries| && Intact(hash, entries)
    ensures Intact(hash, entries[..n])
  {
    hide Digest, Get;
    forall i | 0 <= i < n
      ensures LinkedAt(hash, entries[..n], i)
    {
      assert LinkedAt(hash, entries, i);
    }
  }

  lemma GenesisFollows(hash: Hash, a: seq<Value>, b: seq<Value>)
    requires |a| == 1 && |b| > 1 && Intact(hash, a) && Intact(hash, b)
    requires CleanEntries(a) && CleanEntries(b) && Same(a[0], b[|b| - 1])
    ensures GenesisHit(hash, b)
  {
    hide Same, Get;
    assert LinkedAt(hash, a, 0) && LinkedAt(hash, b, |b| - 1);
    PreviousKeyAgrees(a[0], b[|b| - 1], GENESIS);
    assert Digest(hash, b[|b| - 2]) == GENESIS;
  }

  lemma StepBack(hash: Hash, a: seq<Value>, b: seq<Value>)
    requires |a| > 1 && |b| > 1 && Intact(hash, a) && Intact(hash, b)
    requires CleanEntries(a) && CleanEntries(b) && Same(a[|a| - 1], b[|b| - 1])
    ensures Same(a[|a| - 2], b[|b| - 2]) || Collision(hash, a, b)
  {
    hide Same, Get, Digest, Collide;
    assert LinkedAt(hash, a, |a| - 1) && LinkedAt(hash, b, |b| - 1);
    PreviousKeyAgrees(a[|a| - 1], b[|b| - 1], Previous(hash, a, |a| - 1));
    DigestsAgree(hash, a[|a| - 2], b[|b| - 2]);
  }

  lemma HitsGrow(hash: Hash, a: seq<Value>, b: seq<Value>, m: nat, n: nat)
    requires m <= |a| && n <= |b|
    ensures Collision(hash, a[..m], b[..n]) ==> Collision(hash, a, b)
    ensures GenesisHit(hash, a[..m]) ==> GenesisHit(hash, a)
    ensures GenesisHit(hash, b[..n]) ==> GenesisHit(hash, b)
  {
    hide Collide, Digest;
    if i, j :| 0 <= i < m && 0 <= j < n && Collide(hash, a[..m][i], b[..n][j]) {
      assert Collide(hash, a[i], b[j]);
    }
    if i :| 0 <= i < m && Digest(hash, a[..m][i]) == GENESIS {
      assert Digest(hash, a[i]) == GENESIS;
    }
    if j :| 0 <= j < n && Digest(hash, b[..n][j]) == GENESIS {
      assert Digest(hash, b[j]) == GENESIS;
    }
  }

  /** Two logs that verify and end in the same entry hold the same entries, or they exhibit
      a hash collision between them, or an entry of theirs hashes to GENESIS. */
  lemma {:induction false} TamperEvidence(hash: Hash, a: seq<Value>, b: seq<Value>)
    requires a != [] && b != [] && Intact(hash, a) && Intact(hash, b)
    requires CleanEntries(a) && CleanEntries(b) && Same(a[|a| - 1], b[|b| - 1])
    ensures SameEntries(a, b) || Collision(hash, a, b) || GenesisHit(hash, a) || GenesisHit(hash, b)
    decreases |a|
  {
    hide Same, Intact, Collision, GenesisHit, CleanEntries;
    if |a| == 1 && |b| == 1 {
    } else if |a| == 1 {
      GenesisFollows(hash, a, b);
    } else if |b| == 1 {
      CleanWellFormed(a, |a| - 1);
      CleanWellFormed(b, |b| - 1);
      SameSymmetric(a[|a| - 1], b[0]);
      GenesisFollows(hash, b, a);
    } else {
      var a1, b1 := a[..|a| - 1], b[..|b| - 1];
      StepBack(hash, a, b);
      PrefixIntact(hash, a, |a1|);
      PrefixIntact(hash, b, |b1|);
      CleanPrefix(a, |a1|);
      CleanPrefix(b, |b1|);
      HitsGrow(hash, a, b, |a1|, |b1|);
      if !Collision(hash, a, b) {
        TamperEvidence(hash, a1, b1);
        SameEntriesSnoc(a, b);
      }
    }
  }

  lemma SameEntriesSnoc(a: seq<Value>, b: seq<Value>)
    requires |a| > 1 && |b| > 1 && Same(a[|a| - 1], b[|b| - 1])
    ensures SameEntries(a[..|a| - 1], b[..|b| - 1]) ==> SameEntries(a, b)
  {
    hide Same;
    var a1, b1 := a[..|a| - 1], b[..|b| - 1];
    if SameEntries(a1, b1) {
      forall i | 0 <= i < |a|
        ensures Same(a[i], b[i])
      {
        if i < |a1| {
          assert a[i] == a1[i] && b[i] == b1[i];
        }
      }
    }
  }

  lemma CleanWellFormed(vs: seq<Value>, i: nat)
    requires i < |vs| && CleanEntries(vs)
    ensures WellFormed(vs[i])
  {
  }

  /** Unless the hash fails on these very entries, a log that differs anywhere from an intact
      one but ends in the same entry, whether by deletion, insertion, edit or reorder, does
      not verify. */
  lemma TamperingVisible(hash: Hash, a: seq<Value>, b: seq<Value>)
    requires !Collision(hash, a, b) && !GenesisHit(hash, a) && !GenesisHit(hash, b)
    requires a != [] && b != [] && CleanEntries(a) && CleanEntries(b)
    requires Intact(hash, a) && Same(a[|a| - 1], b[|b| - 1]) && !SameEntries(a, b)
    ensures !Intact(hash, b)
  {
    if Intact(hash, b) {
      TamperEvidence(hash, a, b);
    }
  }

  lemma EditSeen(hash: Hash, entries: seq<Value>, at: nat, e: Value)
    requires at < |entries| && Intact(hash, entries) && !Collide(hash, entries[at], e)
    requires CleanEntries(entries) && WellFormed(e) && AllPairFree(e)
    requires Intact(hash, entries[at := e])
    ensures Get(e, PREV) == Get(entries[at], PREV) && (at == |entries| - 1 || Same(entries[at], e))
  {
    hide Same, Get, Digest, Collide;
    var edited := entries[at := e];
    assert LinkedAt(hash, entries, at) && LinkedAt(hash, edited, at);
    if at < |entries| - 1 {
      assert LinkedAt(hash, entries, at + 1) && LinkedAt(hash, edited, at + 1);
      DigestsAgree(hash, entries[at], e);
    }
  }

  /** Replacing one entry of an intact log goes unseen exactly when the new entry carries the
      same link and is the last one, or says the same as the old: the last entry's own fields
      are not protected by anything. */
  lemma EditExact(hash: Hash, entries: seq<Value>, at: nat, e: Value)
    requires at < |entries| && Intact(hash, entries) && !Collide(hash, entries[at], e)
    requires CleanEntries(entries) && WellFormed(e) && AllPairFree(e)
    ensures Intact(hash, entries[at := e]) <==>
      Get(e, PREV) == Get(entries[at], PREV) && (at == |entries| - 1 || Same(entries[at], e))
  {
    hide Same, Get, Digest, Collide;
    var edited := entries[at := e];
    if Intact(hash, edited) {
      EditSeen(hash, entries, at, e);
    }
    if Get(e, PREV) == Get(entries[at], PREV) && (at == |entries| - 1 || Same(entries[at], e)) {
      if at < |entries| - 1 {
        SameDigest(hash, entries[at], e);
      }
      forall i | 0 <= i < |edited|
        ensures LinkedAt(hash, edited, i)
      {
        assert LinkedAt(hash, entries, i);
        assert Previous(hash, edited, i) == Previous(hash, entries, i);
      }
    }
  }

  lemma IntactLinks(hash: Hash, entries: seq<Value>, i: nat)
    requires Intact(hash, entries) && i < |entries|
    ensures Get(entries[i], PREV) == Some(Str(Previous(hash, entries, i)))
  {
    hide Get, Previous;
    assert LinkedAt(hash, entries, i);
  }

  /** In an intact log no digest occurs at two places, unless the hash fails on its entries. */
  lemma {:induction false} LinksDiffer(hash: Hash, entries: seq<Value>, m: nat, n: nat)
    requires Intact(hash, entries) && CleanEntries(entries) && m < n <= |entries|
    requires Previous(hash, entries, m) == Previous(hash, entries, n)
    ensures Collision(hash, entries, entries) || GenesisHit(hash, entries)
  {
    hide Same, Get, Digest, Collide, Intact, WellFormed, AllPairFree;
    if m == 0 {
      assert Digest(hash, entries[n - 1]) == GENESIS;
    } else {
      DigestsAgree(hash, entries[m - 1], entries[n - 1]);
      if Same(entries[m - 1], entries[n - 1]) {
        IntactLinks(hash, entries, m - 1);
        IntactLinks(hash, entries, n - 1);
        PreviousKeyAgrees(entries[m - 1], entries[n - 1], Previous(hash, entries, m - 1));
        LinksDiffer(hash, entries, m - 1, n - 1);
      }
    }
  }

  /** Taking entries `m` to `n` out of an intact log goes unseen exactly when they are the
      last ones, unless the hash fails on the log's own entries. */
  lemma {:induction false} RemovalExact(hash: Hash, entries: seq<Value>, m: nat, n: nat)
    requires m < n <= |entries| && Intact(hash, entries) && CleanEntries(entries)
    requires !Collision(hash, entries, entries) && !GenesisHit(hash, entries)
    ensures Intact(hash, entries[..m] + entries[n..]) <==> n == |entries|
  {
    hide Intact, Collision, GenesisHit, CleanEntries, Digest, Get;
    var cut := entries[..m] + entries[n..];
    if n == |entries| {
      assert cut == entries[..m];
      PrefixIntact(hash, entries, m);
    } else if Intact(hash, cut) {
      assert cut[m] == entries[n];
      IntactLinks(hash, cut, m);
      IntactLinks(hash, entries, n);
      assert Previous(hash, cut, m) == Previous(hash, entries, m);
      LinksDiffer(hash, entries, m, n);
    }
  }

  /** The same on the files themselves: for logs decoded from UTF-8, nothing more is needed. */
  lemma TamperEvidenceOnFiles(hash: Hash, a: Text, b: Text)
    requires NoSurrogates(a) && NoSurrogates(b) && ReadText(a).Some? && ReadText(b).Some?
    requires var x, y := ReadText(a).value, ReadText(b).value;
      x != [] && y != [] && Intact(hash, x) && Intact(hash, y) && Same(x[|x| - 1], y[|y| - 1])
    ensures var x, y := ReadText(a).value, ReadText(b).value;
      SameEntries(x, y) || Collision(hash, x, y) || GenesisHit(hash, x) || GenesisHit(hash, y)
  {
    ReadTextClean(a);
    ReadTextClean(b);
    TamperEvidence(hash, ReadText(a).value, ReadText(b).value);
  }
}
