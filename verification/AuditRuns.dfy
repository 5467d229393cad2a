/** Whole runs of `record`: whatever the plans hold, the log stays readable and intact, and
    grows by one line and one entry a call. */
module AuditRuns {
  import opened Texts
  import opened Json
  import opened JsonOrder
  import opened JsonText
  import opened JsonRoundTrip
  import opened JsonCanonical
  import opened JsonParsed
  import opened JsonPlain
  import opened AuditLines
  import opened StewardAudit

  /** The plan's parts are values Python can hold. */
  ghost predicate ValidRequest(r: Request) {
    WellFormed(r.params) && WellFormed(r.blastRadius) && WellFormed(r.confirm)
  }

  /** `hexdigest` is printable ASCII. */
  ghost predicate PrintsDigests(hash: Hash) {
    forall t: Text :: Printable(hash(t))
  }

  lemma KeysPrintable(fs: seq<Field>)
    requires EntryKeys(fs)
    ensures forall i :: 0 <= i < |fs| ==> Printable(fs[i].key)
  {
  }

  lemma EntryWellFormed(r: Request, prev: Text)
    requires ValidRequest(r)
    ensures WellFormed(Entry(r, prev))
  {
    hide Lit;
    EntryKeysDiffer(Entry(r, prev).fields);
  }

  /** What the log says of a dictionary with plain keys, key by key. */
  lemma ReadBackField(fs: seq<Field>, i: nat)
    requires DistinctKeys(fs) && i < |fs|
    requires forall j :: 0 <= j < |fs| ==> Printable(fs[j].key)
    ensures Get(Joined(Sorted(Obj(fs))), fs[i].key) == Some(Joined(Sorted(fs[i].value)))
    ensures Joined(Sorted(Obj(fs))).Obj?
  {
    hide Sorted, Joined, Combine, Dict, Printable;
    SortedObjAscends(fs);
    var gs := Sorted(Obj(fs)).fields;
    AscendDistinct(gs);
    JoinedObj(gs);
    var js := JoinedFields(gs);
    forall j | 0 <= j < |gs|
      ensures js[j].key == gs[j].key
    {
      assert gs[j] in gs;
      var k :| 0 <= k < |fs| && gs[j] == SortedField(fs[k]);
      PlainCombine(gs[j].key);
    }
    DictKeeps(js);
    assert SortedField(fs[i]) in gs;
    var j :| 0 <= j < |gs| && gs[j] == SortedField(fs[i]);
    LookupFinds(js, j);
  }

  /** The entry as `_read` returns it: the one `record` returned, keys in order and surrogate
      pairs combined. */
  function Stored(r: Request, prev: Text): Value {
    Joined(Sorted(Entry(r, prev)))
  }

  /** The entry as read back says key by key what it said when it was written, with keys in
      order and surrogate pairs combined in each value. */
  ghost predicate ReadsBack(e: Value, stored: Value) {
    stored.Obj? && e.Obj? &&
    forall f :: f in e.fields ==> Get(stored, f.key) == Some(Joined(Sorted(f.value)))
  }

  lemma StoredReadsBack(r: Request, prev: Text)
    ensures ReadsBack(Entry(r, prev), Stored(r, prev))
  {
    hide Lit, Printable, Joined, Sorted, Get;
    var fs := Entry(r, prev).fields;
    EntryKeysDiffer(fs);
    KeysPrintable(fs);
    forall f | f in fs
      ensures Get(Stored(r, prev), f.key) == Some(Joined(Sorted(f.value)))
    {
      var i :| 0 <= i < |fs| && fs[i] == f;
      ReadBackField(fs, i);
    }
    ReadBackField(fs, 0);
  }

  lemma StoredLinks(r: Request, prev: Text)
    requires Printable(prev)
    ensures Get(Stored(r, prev), PREV) == Some(Str(prev)) && Stored(r, prev).Obj?
  {
    hide Lit, Printable;
    var fs := Entry(r, prev).fields;
    EntryKeysDiffer(fs);
    KeysPrintable(fs);
    ReadBackField(fs, 8);
    PlainCombine(prev);
  }

  lemma LineReads(r: Request, prev: Text)
    requires ValidRequest(r)
    ensures var line := Dumps(Entry(r, prev), []);
      && Printable(line) && line != [] && line[0] == LBRACE && line[|line| - 1] == RBRACE
      && Loads(line) == Some(Stored(r, prev))
  {
    var e := Entry(r, prev);
    EntryWellFormed(r, prev);
    DumpsPrintable(e, []);
    LoadsDumps(e, []);
    SortedObj(e.fields);
  }

  /** What is read back says what `record` returned exactly when no text of the plan spells
      an astral character with two surrogates. */
  lemma StoredExact(r: Request, prev: Text)
    requires ValidRequest(r)
    ensures Same(Entry(r, prev), Stored(r, prev)) <==> AllPairFree(Entry(r, prev))
  {
    hide Sorted, Joined, Same, AllPairFree, WellFormed;
    var e := Entry(r, prev);
    EntryWellFormed(r, prev);
    LoadsDumps(e, []);
    SortedWellFormed(e);
    RoundTripExact(e, []);
    DumpsPrintable(e, []);
    PrintableClean(Dumps(e, []));
    LoadsGood(Dumps(e, []));
    SortedDecidesSame(e, Stored(r, prev));
    if Same(e, Stored(r, prev)) {
      SortedWellFormed(Stored(r, prev));
    }
    if AllPairFree(e) {
      SortedTwice(e);
    }
  }

  lemma PrintableClean(t: Text)
    requires Printable(t)
    ensures NoSurrogates(t)
  {
  }

  // ------------------------------------------------------------ runs

  /** Readable, closed, and intact. */
  ghost predicate Healthy(hash: Hash, text: Text) {
    && Closed(text)
    && ReadText(text).Some?
    && Intact(hash, ReadText(text).value)
  }

  lemma IntactGrows(hash: Hash, entries: seq<Value>, e: Value)
    requires Intact(hash, entries) && Get(e, PREV) == Some(Str(LastDigest(hash, entries)))
    ensures Intact(hash, entries + [e])
  {
    hide Digest, Get;
    var more := entries + [e];
    forall i | 0 <= i < |more|
      ensures LinkedAt(hash, more, i)
    {
      assert i < |entries| ==> LinkedAt(hash, entries, i);
      assert Previous(hash, more, i) == Previous(hash, entries, i);
    }
  }

  lemma LastDigestPrintable(hash: Hash, entries: seq<Value>)
    requires PrintsDigests(hash)
    ensures Printable(LastDigest(hash, entries))
  {
  }

  /** One `record` on a healthy log: the bytes before stay, one physical line is added
      whatever the plan's texts hold, reading gives the old entries and the new one, and the
      chain is still intact. */
  lemma RecordKeepsHealth(hash: Hash, text: Text, r: Request)
    requires PrintsDigests(hash) && Healthy(hash, text) && ValidRequest(r)
    ensures var entries, after := ReadText(text).value, Recorded(hash, text, r);
      && Healthy(hash, after)
      && text <= after
      && |Lines(after)| == |Lines(text)| + 1
      && ReadText(after) == Some(entries + [Stored(r, LastDigest(hash, entries))])
  {
    hide ReadText, Lines, Loads, Dumps, Entry, Intact, Stored, Get, PrintsDigests, LastDigest, Printable;
    var entries := ReadText(text).value;
    var prev := LastDigest(hash, entries);
    LastDigestPrintable(hash, entries);
    LineReads(r, prev);
    AppendOne(text, Dumps(Entry(r, prev), []));
    StoredLinks(r, prev);
    IntactGrows(hash, entries, Stored(r, prev));
  }

  lemma PlanRequest(show: Show, plan: Value, outcome: Text, actor: Text, ts: Text)
    requires WellFormed(plan)
    ensures ValidRequest(RequestOf(show, plan, outcome, actor, ts))
  {
    hide Lit;
  }

  /** What the log says after one `record` of a plan: the entries it held, and then one that says
      what the plan and the caller said. */
  lemma RecordTells(hash: Hash, text: Text, show: Show, plan: Value, outcome: Text, actor: Text, ts: Text)
    returns (e: Value, stored: Value)
    requires PrintsDigests(hash) && Healthy(hash, text) && plan.Obj? && WellFormed(plan)
    ensures ReadText(text).Some?
    ensures EntrySays(show, plan, outcome, actor, ts, Link(hash, ReadText(text).value), e) && ReadsBack(e, stored)
    ensures ReadText(text + Dumps(e, []) + [NEWLINE]) == Some(ReadText(text).value + [stored])
  {
    hide ReadText, EntrySays, ReadsBack, Dumps, RequestOf, Entry, Stored, PrintsDigests, WellFormed;
    var r := RequestOf(show, plan, outcome, actor, ts);
    PlanRequest(show, plan, outcome, actor, ts);
    HealthyReads(hash, text);
    var entries := ReadText(text).value;
    var prev := LastDigest(hash, entries);
    e, stored := Entry(r, prev), Stored(r, prev);
    LastDigestIsLink(hash, entries);
    EntryTells(show, plan, outcome, actor, ts, prev);
    StoredReadsBack(r, prev);
    RecordKeepsHealth(hash, text, r);
  }

  function RecordAll(hash: Hash, text: Text, rs: seq<Request>): Text
    decreases rs
  {
    if rs == [] then text else RecordAll(hash, Recorded(hash, text, rs[0]), rs[1..])
  }

  /** What a run leaves in the log, given what was there. */
  function StoredAll(hash: Hash, entries: seq<Value>, rs: seq<Request>): (all: seq<Value>)
    ensures |all| == |entries| + |rs|
    decreases rs
  {
    if rs == [] then entries
    else StoredAll(hash, entries + [Stored(rs[0], LastDigest(hash, entries))], rs[1..])
  }

  /** Any sequence of records keeps a healthy log healthy, never touches an earlier byte, and
      leaves exactly the entries of its requests, in order, after those that were there. */
  lemma {:induction false} RunKeepsHealth(hash: Hash, text: Text, rs: seq<Request>)
    requires PrintsDigests(hash) && Healthy(hash, text)
    requires forall i :: 0 <= i < |rs| ==> ValidRequest(rs[i])
    ensures var after := RecordAll(hash, text, rs);
      && Healthy(hash, after)
      && text <= after
      && |Lines(after)| == |Lines(text)| + |rs|
      && ReadText(after) == Some(StoredAll(hash, ReadText(text).value, rs))
    decreases rs
  {
    hide Healthy, Recorded, Stored, ReadText, Lines, PrintsDigests, ValidRequest;
    if rs != [] {
      var next := Recorded(hash, text, rs[0]);
      HealthyReads(hash, text);
      RecordKeepsHealth(hash, text, rs[0]);
      RunKeepsHealth(hash, next, rs[1..]);
    } else {
      HealthyReads(hash, text);
    }
  }

  lemma HealthyReads(hash: Hash, text: Text)
    requires Healthy(hash, text)
    ensures ReadText(text).Some?
  {
  }

  /** From a log that does not exist yet: every run verifies. */
  lemma FreshRunVerifies(hash: Hash, rs: seq<Request>)
    requires PrintsDigests(hash)
    requires forall i :: 0 <= i < |rs| ==> ValidRequest(rs[i])
    ensures var after := RecordAll(hash, [], rs);
      && ReadText(after) == Some(StoredAll(hash, [], rs))
      && VerdictHolds(hash, StoredAll(hash, [], rs), if rs == [] then EmptyLog else ChainIntact(|rs|))
  {
    assert Lines([]) == [] && ReadLines([]) == Some([]);
    assert Healthy(hash, []);
    RunKeepsHealth(hash, [], rs);
  }
}
