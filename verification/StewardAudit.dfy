/** The Steward's audit log (engine/steward/steward-audit.py): an append-only text file of
    entries, each carrying the digest of the one before. `hash` stands for SHA-256 of the
    UTF-8 bytes, in hexadecimal; nothing is assumed of it but what a lemma states. */
module StewardAudit {
  import opened Texts
  import opened Json
  import opened JsonText
  import opened AuditLines

  type Hash = Text -> Text

  function Zeros(n: nat): (t: Text)
    ensures |t| == n && forall i :: 0 <= i < n ==> t[i] == 48
  {
    if n == 0 then [] else [48] + Zeros(n - 1)
  }

  /** Sixty-four zeros. */
  const GENESIS: Text := Zeros(64)

  const TS: Text := Lit("ts")
  const ACTOR: Text := Lit("actor")
  const VERB: Text := Lit("verb")
  const PARAMS: Text := Lit("params")
  const BLAST_RADIUS: Text := Lit("blast_radius")
  const CONFIRM: Text := Lit("confirm")
  const OUTCOME: Text := Lit("outcome")
  const RETURNED_SECRET: Text := Lit("returned_secret")
  const PREV: Text := Lit("prev")

  /** `_digest` */
  function Digest(hash: Hash, entry: Value): Text {
    hash(Dumps(entry, []))
  }

  function Previous(hash: Hash, entries: seq<Value>, i: nat): Text
    requires i <= |entries|
  {
    if i == 0 then GENESIS else Digest(hash, entries[i - 1])
  }

  predicate LinkedAt(hash: Hash, entries: seq<Value>, i: nat)
    requires i < |entries|
  {
    Get(entries[i], PREV) == Some(Str(Previous(hash, entries, i)))
  }

  /** Every entry carries the digest of the one before it, the first one GENESIS. */
  predicate Intact(hash: Hash, entries: seq<Value>) {
    forall i :: 0 <= i < |entries| ==> LinkedAt(hash, entries, i)
  }

  /** What `verify` says of entries it could read; an entry that is not an object makes it
      raise. */
  datatype Verdict =
    | EmptyLog
    | ChainIntact(count: nat)
    | ChainBroken(at: nat)
    | NotAnEntry(at: nat)

  predicate VerdictHolds(hash: Hash, entries: seq<Value>, v: Verdict) {
    match v
    case EmptyLog => entries == []
    case ChainIntact(n) => n == |entries| > 0 && Intact(hash, entries)
    case ChainBroken(at) =>
      at < |entries| && Intact(hash, entries[..at]) && entries[at].Obj? && !LinkedAt(hash, entries, at)
    case NotAnEntry(at) => at < |entries| && Intact(hash, entries[..at]) && !entries[at].Obj?
  }

  lemma IntactSnoc(hash: Hash, entries: seq<Value>, i: nat)
    requires i < |entries|
    ensures Intact(hash, entries[..i + 1]) <==> Intact(hash, entries[..i]) && LinkedAt(hash, entries, i)
  {
    hide Digest;
    var shorter, longer := entries[..i], entries[..i + 1];
    forall j | 0 <= j <= i
      ensures LinkedAt(hash, longer, j) <==> LinkedAt(hash, entries, j)
      ensures j < i ==> (LinkedAt(hash, shorter, j) <==> LinkedAt(hash, entries, j))
    {
    }
  }

  /** The walk of `verify` over the entries. */
  method Walk(hash: Hash, entries: seq<Value>) returns (v: Verdict)
    ensures VerdictHolds(hash, entries, v)
  {
    if entries == [] {
      return EmptyLog;
    }
    var expected := GENESIS;
    for i := 0 to |entries|
      invariant Intact(hash, entries[..i]) && expected == Previous(hash, entries, i)
    {
      if !entries[i].Obj? {
        return NotAnEntry(i);
      }
      if Get(entries[i], PREV) != Some(Str(expected)) {
        return ChainBroken(i);
      }
      IntactSnoc(hash, entries, i);
      expected := Digest(hash, entries[i]);
    }
    assert entries[..|entries|] == entries;
    return ChainIntact(|entries|);
  }

  lemma VerdictDecides(hash: Hash, entries: seq<Value>, v: Verdict)
    requires VerdictHolds(hash, entries, v)
    ensures v.EmptyLog? || v.ChainIntact? <==> Intact(hash, entries)
  {
    if v.ChainBroken? || v.NotAnEntry? {
      assert Intact(hash, entries) ==> LinkedAt(hash, entries, v.at);
    }
  }

  // ------------------------------------------------------------ recording

  /** What `record` takes from the plan and is told besides. */
  datatype Request = Request(
    verb: Text,
    params: Value,
    blastRadius: Value,
    confirm: Value,
    returnsSecret: bool,
    outcome: Text,
    actor: Text,
    ts: Text)

  const RETURNS_SECRET: Text := Lit("returns_secret")

  /** `str(v)`, for what is not text already. */
  type Show = Value -> Text

  function Shown(show: Show, v: Value): Text {
    if v.Str? then v.s else show(v)
  }

  /** The plan is any dictionary; what is missing is read with the source's defaults. */
  function RequestOf(show: Show, plan: Value, outcome: Text, actor: Text, ts: Text): Request {
    var params := GetOrNull(plan, PARAMS);
    Request(
      match Get(plan, VERB) case Some(v) => Shown(show, v) case None => [],
      if Truthy(params) then params else Obj([]),
      GetOrNull(plan, BLAST_RADIUS),
      GetOrNull(plan, CONFIRM),
      Truthy(GetOrNull(plan, RETURNS_SECRET)),
      outcome, actor, ts)
  }

  /** The entry, in the order of ENTRY_FIELDS. */
  function Entry(r: Request, prev: Text): Value {
    Obj([
      Field(TS, Str(r.ts)),
      Field(ACTOR, Str(r.actor)),
      Field(VERB, Str(r.verb)),
      Field(PARAMS, r.params),
      Field(BLAST_RADIUS, r.blastRadius),
      Field(CONFIRM, r.confirm),
      Field(OUTCOME, Str(r.outcome)),
      Field(RETURNED_SECRET, Bool(r.returnsSecret)),
      Field(PREV, Str(prev))
    ])
  }

  function LastDigest(hash: Hash, entries: seq<Value>): Text {
    Previous(hash, entries, |entries|)
  }

  /** The file after one call of `record`; unchanged when reading it raised. */
  function Recorded(hash: Hash, text: Text, r: Request): Text {
    match ReadText(text)
    case None => text
    case Some(entries) => text + Dumps(Entry(r, LastDigest(hash, entries)), []) + [NEWLINE]
  }

  /** What an entry is to say of a plan, field by field, and that it says nothing else: there is
      no room in it for the secret a verb hands back. */
  predicate EntrySays(show: Show, plan: Value, outcome: Text, actor: Text, ts: Text, prev: Text, e: Value) {
    && e.Obj? && |e.fields| == 9
    && Get(e, TS) == Some(Str(ts)) && Get(e, ACTOR) == Some(Str(actor)) && Get(e, OUTCOME) == Some(Str(outcome))
    && Get(e, VERB) == Some(Str(match Get(plan, VERB)
                                case None => []
                                case Some(Str(verb)) => verb
                                case Some(v) => show(v)))
    && Get(e, PARAMS) == Some(match Get(plan, PARAMS)
                              case None => Obj([])
                              case Some(params) => if Truthy(params) then params else Obj([]))
    && Get(e, BLAST_RADIUS) == Some(match Get(plan, BLAST_RADIUS) case Some(v) => v case None => Null)
    && Get(e, CONFIRM) == Some(match Get(plan, CONFIRM) case Some(v) => v case None => Null)
    && Get(e, RETURNED_SECRET) == Some(Bool(Get(plan, RETURNS_SECRET).Some? && Truthy(Get(plan, RETURNS_SECRET).value)))
    && Get(e, PREV) == Some(Str(prev))
  }

  /** The digest a new entry is to carry. */
  function Link(hash: Hash, entries: seq<Value>): Text {
    if entries == [] then Zeros(64) else hash(Dumps(entries[|entries| - 1], []))
  }

  predicate EntryKeys(fs: seq<Field>) {
    && |fs| == 9
    && fs[0].key == TS && fs[1].key == ACTOR && fs[2].key == VERB && fs[3].key == PARAMS
    && fs[4].key == BLAST_RADIUS && fs[5].key == CONFIRM && fs[6].key == OUTCOME
    && fs[7].key == RETURNED_SECRET && fs[8].key == PREV
  }

  lemma EntryKeysDiffer(fs: seq<Field>)
    requires EntryKeys(fs)
    ensures DistinctKeys(fs)
  {
    assert TS[0] == 116 && ACTOR[0] == 97 && VERB[0] == 118 && BLAST_RADIUS[0] == 98;
    assert CONFIRM[0] == 99 && OUTCOME[0] == 111 && PREV[0] == 112;
  }

  lemma EntryFields(fs: seq<Field>)
    requires EntryKeys(fs)
    ensures forall i :: 0 <= i < 9 ==> Lookup(fs, fs[i].key) == Some(fs[i].value)
  {
    hide Lookup, DistinctKeys, Lit;
    EntryKeysDiffer(fs);
    forall i | 0 <= i < 9
      ensures Lookup(fs, fs[i].key) == Some(fs[i].value)
    {
      LookupFinds(fs, i);
    }
  }

  lemma EntryGets(r: Request, prev: Text)
    ensures var e := Entry(r, prev);
      && |e.fields| == 9
      && Get(e, TS) == Some(Str(r.ts)) && Get(e, ACTOR) == Some(Str(r.actor)) && Get(e, VERB) == Some(Str(r.verb))
      && Get(e, PARAMS) == Some(r.params) && Get(e, BLAST_RADIUS) == Some(r.blastRadius)
      && Get(e, CONFIRM) == Some(r.confirm) && Get(e, OUTCOME) == Some(Str(r.outcome))
      && Get(e, RETURNED_SECRET) == Some(Bool(r.returnsSecret)) && Get(e, PREV) == Some(Str(prev))
  {
    hide Lookup, Lit;
    var fs := Entry(r, prev).fields;
    assert EntryKeys(fs);
    EntryFields(fs);
    assert Lookup(fs, fs[0].key) == Some(fs[0].value) && Lookup(fs, fs[1].key) == Some(fs[1].value);
    assert Lookup(fs, fs[2].key) == Some(fs[2].value) && Lookup(fs, fs[3].key) == Some(fs[3].value);
    assert Lookup(fs, fs[4].key) == Some(fs[4].value) && Lookup(fs, fs[5].key) == Some(fs[5].value);
    assert Lookup(fs, fs[6].key) == Some(fs[6].value) && Lookup(fs, fs[7].key) == Some(fs[7].value);
    assert Lookup(fs, fs[8].key) == Some(fs[8].value);
  }

  lemma EntryTells(show: Show, plan: Value, outcome: Text, actor: Text, ts: Text, prev: Text)
    ensures EntrySays(show, plan, outcome, actor, ts, prev, Entry(RequestOf(show, plan, outcome, actor, ts), prev))
  {
    hide Get, Lit, Entry, Truthy;
    var r := RequestOf(show, plan, outcome, actor, ts);
    EntryGets(r, prev);
    NullIsNothing();
    EntryIsObj(r, prev);
  }

  lemma EntryIsObj(r: Request, prev: Text)
    ensures Entry(r, prev).Obj?
  {
  }

  lemma NullIsNothing()
    ensures !Truthy(Null)
  {
  }

  lemma LastDigestIsLink(hash: Hash, entries: seq<Value>)
    ensures LastDigest(hash, entries) == Link(hash, entries)
  {
  }

  /** The log file. A file that does not exist reads as an empty one. */
  class AuditLog {
    var text: Text

    constructor ()
      ensures text == []
    {
      text := [];
    }

    /** `_read` */
    method Read() returns (entries: Option<seq<Value>>)
      ensures entries == ReadText(text)
    {
      var lines := Lines(text);
      var out := [];
      for i := 0 to |lines|
        invariant ReadLines(lines[..i]) == Some(out)
      {
        hide Lines, ReadLines, Loads, Strip;
        ReadLinesStep(lines, i);
        var line := Strip(lines[i]);
        if line != [] {
          var v := Loads(line);
          if v == None {
            return None;
          }
          out := out + [v.value];
        }
      }
      assert lines[..|lines|] == lines;
      return Some(out);
    }

    /** `record`: when the log can be read, one line is appended, the canonical text of an entry
        that says what the plan and the caller say and carries the digest of the last entry. */
    method Record(hash: Hash, show: Show, plan: Value, outcome: Text, actor: Text, ts: Text) returns (entry: Option<Value>)
      requires plan.Obj?
      modifies this
      ensures text == Recorded(hash, old(text), RequestOf(show, plan, outcome, actor, ts))
      ensures entry == match ReadText(old(text))
                       case None => None
                       case Some(entries) => Some(Entry(RequestOf(show, plan, outcome, actor, ts), LastDigest(hash, entries)))
      ensures entry == None <==> ReadText(old(text)) == None
      ensures entry == None ==> text == old(text)
      ensures entry.Some? ==>
        && EntrySays(show, plan, outcome, actor, ts, Link(hash, ReadText(old(text)).value), entry.value)
        && text == old(text) + Dumps(entry.value, []) + [NEWLINE]
    {
      hide EntrySays;
      var r := RequestOf(show, plan, outcome, actor, ts);
      var entries := Read();
      if entries == None {
        return None;
      }
      var prev := if entries.value != [] then Digest(hash, entries.value[|entries.value| - 1]) else GENESIS;
      var e := Entry(r, prev);
      EntryTells(show, plan, outcome, actor, ts, prev);
      text := text + Dumps(e, []) + [NEWLINE];
      return Some(e);
    }

    /** `verify`; `None` when reading the log raised. */
    method Verify(hash: Hash) returns (v: Option<Verdict>)
      ensures v == None <==> ReadText(text) == None
      ensures v.Some? ==> VerdictHolds(hash, ReadText(text).value, v.value)
    {
      var entries := Read();
      if entries == None {
        return None;
      }
      var verdict := Walk(hash, entries.value);
      return Some(verdict);
    }
  }
}
