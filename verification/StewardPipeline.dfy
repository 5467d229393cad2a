/** The Steward's parts together (engine/steward/sambuca-steward): a reply is parsed, the
    proposal crosses to the gate as JSON text, and the plan can be recorded. */
module StewardPipeline {
  import opened Texts
  import opened Json
  import opened JsonOrder
  import opened JsonText
  import opened JsonRoundTrip
  import opened JsonCanonical
  import opened JsonParsed
  import opened AuditLines
  import opened StewardPlan
  import Scanner
  import Parser = StewardParse
  import Gate = StewardGate
  import Laws = GateLaws
  import Audit = StewardAudit
  import Runs = AuditRuns

  datatype Failure = NotAProposal(parse: Parser.Refusal) | NotJson | Refused(gate: Gate.Refusal)

  const SPACE: Text := [32]

  /** What the parser returns. */
  function ProposalJson(p: Parser.Proposal): Value {
    Obj([Field(Gate.VERB, Str(p.verb)), Field(Gate.PARAMS, Obj(p.params))])
  }

  function Decide(show: Gate.Show, catalogue: seq<Field>, text: Text): Result<Plan, Failure> {
    match Loads(text)
    case None => Err(NotJson)
    case Some(proposal) =>
      match Gate.Gate(show, catalogue, proposal)
      case Ok(plan) => Ok(plan)
      case Err(e) => Err(Refused(e))
  }

  function Explained(show: Gate.Show, catalogue: seq<Field>, reply: Text): Result<Plan, Failure> {
    match Parser.Judge(reply)
    case Err(e) => Err(NotAProposal(e))
    case Ok(p) => Decide(show, catalogue, Dumps(ProposalJson(p), SPACE))
  }

  /** `sambuca-steward explain`: two processes with JSON text between them. */
  method Explain(show: Gate.Show, catalogue: seq<Field>, reply: Text) returns (r: Result<Plan, Failure>)
    requires Gate.CatalogueShape(catalogue)
    ensures r == Explained(show, catalogue, reply)
  {
    hide Dumps, Loads, Sorted;
    var parsed := Parser.Parse(reply);
    if parsed.Err? {
      return Err(NotAProposal(parsed.error));
    }
    CrossesAsObject(reply);
    var proposal := Loads(Dumps(ProposalJson(parsed.value), SPACE));
    if proposal == None {
      return Err(NotJson);
    }
    var plan := Gate.Resolve(show, catalogue, proposal.value);
    r := if plan.Ok? then Ok(plan.value) else Err(Refused(plan.error));
  }

  // ------------------------------------------------------------ what the parser hands over

  lemma CandidateGood(reply: Text, k: nat)
    requires NoSurrogates(reply) && k < |Scanner.Candidates(reply)|
    ensures WellFormed(Scanner.Candidates(reply)[k]) && AllPairFree(Scanner.Candidates(reply)[k])
  {
    hide Loads, WellFormed, AllPairFree, NoSurrogates, Scanner.Candidates;
    var spans := Scanner.CandidatesStandInText(reply);
    PartNoSurrogates(reply, spans[k].0, spans[k].1);
    LoadsGood(reply[spans[k].0..spans[k].1]);
  }

  /** Whatever the reply, lone surrogates included, the gate is handed a dictionary. */
  lemma {:induction false} CrossesAsObject(reply: Text)
    requires Parser.Judge(reply).Ok?
    ensures var text := Dumps(ProposalJson(Parser.Judge(reply).value), SPACE);
      Loads(text).Some? && Loads(text).value.Obj?
  {
    hide Dumps, Loads, WellFormed, Scanner.Candidates, Parser.WellShaped, Parser.ProposalOf, ProposalJson, Sorted, Joined;
    var found := Scanner.Candidates(reply);
    CandidateWellFormed(reply, 0);
    ProposalWellFormed(found[0]);
    var p := Parser.ProposalOf(found[0]);
    LoadsDumps(ProposalJson(p), SPACE);
    JsonStaysObj(p);
  }

  lemma CandidateWellFormed(reply: Text, k: nat)
    requires k < |Scanner.Candidates(reply)|
    ensures WellFormed(Scanner.Candidates(reply)[k])
  {
    hide Loads, WellFormed, NoSurrogates, Scanner.Candidates;
    var spans := Scanner.CandidatesStandInText(reply);
    LoadsGood(reply[spans[k].0..spans[k].1]);
  }

  lemma ProposalWellFormed(v: Value)
    requires WellFormed(v) && Parser.WellShaped(v)
    ensures WellFormed(ProposalJson(Parser.ProposalOf(v)))
  {
    hide Strip, Lit;
    TwoKeys();
    NothingGood();
  }

  lemma JsonStaysObj(p: Parser.Proposal)
    ensures Joined(Sorted(ProposalJson(p))).Obj?
  {
  }

  lemma GoodParts(v: Value, key: Text)
    requires WellFormed(v) && AllPairFree(v) && Get(v, key).Some?
    ensures WellFormed(Get(v, key).value) && AllPairFree(Get(v, key).value)
  {
  }

  lemma PairFreeStrip(t: Text)
    requires PairFree(t)
    ensures PairFree(Strip(t))
  {
    hide Strip;
    var i, j := StripShape(t);
  }

  lemma TwoKeys()
    ensures Gate.VERB != Gate.PARAMS && PairFree(Gate.VERB) && PairFree(Gate.PARAMS)
    ensures Gate.VERB == Scanner.VERB && Gate.PARAMS == Parser.PARAMS
  {
    assert Gate.VERB[0] != Gate.PARAMS[0];
    assert Gate.VERB == Scanner.VERB;
    assert Gate.PARAMS == Parser.PARAMS;
  }

  lemma JsonGood(p: Parser.Proposal)
    requires PairFree(p.verb) && WellFormed(Obj(p.params)) && AllPairFree(Obj(p.params))
    ensures WellFormed(ProposalJson(p)) && AllPairFree(ProposalJson(p))
  {
    hide Lit, PairFree;
    TwoKeys();
  }

  lemma ProposalGood(v: Value)
    requires WellFormed(v) && AllPairFree(v) && Parser.WellShaped(v)
    ensures var p := Parser.ProposalOf(v); WellFormed(ProposalJson(p)) && AllPairFree(ProposalJson(p))
  {
    hide Strip, PairFree, Get;
    GoodParts(v, Scanner.VERB);
    PairFreeStrip(Get(v, Scanner.VERB).value.s);
    NothingGood();
    if Get(v, Parser.PARAMS).Some? {
      GoodParts(v, Parser.PARAMS);
    }
    JsonGood(Parser.ProposalOf(v));
  }

  lemma NothingGood()
    ensures WellFormed(Obj([])) && AllPairFree(Obj([]))
  {
  }

  /** The proposal arrives at the gate as it left the parser, with its keys in order. */
  lemma {:induction false} Crosses(reply: Text)
    requires NoSurrogates(reply) && Parser.Judge(reply).Ok?
    ensures var p := ProposalJson(Parser.Judge(reply).value);
      WellFormed(p) && Loads(Dumps(p, SPACE)) == Some(Sorted(p)) && Sorted(p).Obj?
  {
    hide Dumps, Loads, WellFormed, AllPairFree, NoSurrogates, Scanner.Candidates, Parser.WellShaped, Parser.ProposalOf, ProposalJson, Sorted;
    var found := Scanner.Candidates(reply);
    CandidateGood(reply, 0);
    ProposalGood(found[0]);
    var p := ProposalJson(Parser.ProposalOf(found[0]));
    RoundTripExact(p, SPACE);
    JsonIsObj(Parser.ProposalOf(found[0]));
  }

  lemma JsonIsObj(p: Parser.Proposal)
    ensures Sorted(ProposalJson(p)).Obj?
  {
  }

  // ------------------------------------------------------------ key order at the gate

  function SortedOption(v: Option<Value>): Option<Value> {
    if v.Some? then Some(Sorted(v.value)) else None
  }

  /** The second dictionary holds what the first does, each value with its keys in order. */
  ghost predicate Carried(fs: seq<Field>, gs: seq<Field>) {
    (forall k :: Lookup(gs, k) == SortedOption(Lookup(fs, k))) && (fs == [] <==> gs == [])
  }

  lemma SortedCarries(fs: seq<Field>)
    requires DistinctKeys(fs)
    ensures Sorted(Obj(fs)).Obj? && Carried(fs, Sorted(Obj(fs)).fields)
  {
    hide Sorted;
    SortedObjAscends(fs);
    var gs := Sorted(Obj(fs)).fields;
    AscendDistinct(gs);
    forall j | 0 <= j < |gs|
      ensures HasKey(fs, gs[j].key)
    {
      assert gs[j] in gs;
    }
    forall k
      ensures Lookup(gs, k) == SortedOption(Lookup(fs, k))
    {
      if HasKey(fs, k) {
        var i :| 0 <= i < |fs| && fs[i].key == k;
        LookupFinds(fs, i);
        assert SortedField(fs[i]) in gs;
        var j :| 0 <= j < |gs| && gs[j] == SortedField(fs[i]);
        LookupFinds(gs, j);
      }
    }
  }

  lemma {:induction false} InsertNumeric(f: Field, fs: seq<Field>)
    ensures NumericFields(Insert(f, fs)) == Insert(NumericField(f), NumericFields(fs))
  {
    hide Numeric, NumericFields, Less;
    if fs != [] {
      assert fs == [fs[0]] + fs[1..];
      NumericCons(fs[0], fs[1..]);
      NumericCons(f, fs);
      NumericCons(fs[0], Insert(f, fs[1..]));
      assert NumericFields(fs)[1..] == NumericFields(fs[1..]);
      InsertNumeric(f, fs[1..]);
    } else {
      NumericCons(f, fs);
    }
  }

  lemma NumericCons(f: Field, fs: seq<Field>)
    ensures NumericFields([f] + fs) == [NumericField(f)] + NumericFields(fs)
  {
  }

  function NumericField(f: Field): Field {
    Field(f.key, Numeric(f.value))
  }

  function NumericFields(fs: seq<Field>): (r: seq<Field>)
    ensures |r| == |fs| && forall i :: 0 <= i < |fs| ==> r[i] == NumericField(fs[i])
  {
    seq(|fs|, i requires 0 <= i < |fs| => NumericField(fs[i]))
  }

  lemma NumericObj(fs: seq<Field>)
    ensures Numeric(Obj(fs)) == Obj(NumericFields(fs))
  {
    assert seq(|fs|, i requires 0 <= i < |fs| => Field(fs[i].key, Numeric(fs[i].value))) == NumericFields(fs);
  }

  lemma {:induction false} SortNumeric(fs: seq<Field>)
    ensures NumericFields(SortFields(fs)) == SortFields(NumericFields(fs))
  {
    hide Numeric, Insert;
    if fs != [] {
      SortNumeric(fs[1..]);
      InsertNumeric(fs[0], SortFields(fs[1..]));
      assert NumericFields(fs)[1..] == NumericFields(fs[1..]);
    }
  }

  /** Reading booleans as numbers and putting keys in order can be done either way round. */
  lemma {:induction false} NumericSorted(v: Value)
    ensures Numeric(Sorted(v)) == Sorted(Numeric(v))
  {
    match v
    case Arr(items) =>
      forall i | 0 <= i < |items|
        ensures Numeric(Sorted(items[i])) == Sorted(Numeric(items[i]))
      {
        NumericSorted(items[i]);
      }
      assert Numeric(Sorted(v)).items == Sorted(Numeric(v)).items;
    case Obj(fs) =>
      forall i | 0 <= i < |fs|
        ensures Numeric(Sorted(fs[i].value)) == Sorted(Numeric(fs[i].value))
      {
        NumericSorted(fs[i].value);
      }
      NumericSortedObj(fs);
    case _ =>
  }

  lemma NumericSortedObj(fs: seq<Field>)
    requires forall i :: 0 <= i < |fs| ==> Numeric(Sorted(fs[i].value)) == Sorted(Numeric(fs[i].value))
    ensures Numeric(Sorted(Obj(fs))) == Sorted(Numeric(Obj(fs)))
  {
    hide Numeric, Sorted;
    SortedObj(fs);
    NumericObj(fs);
    NumericObj(SortFields(SortedValues(fs)));
    SortedObj(NumericFields(fs));
    SortNumeric(SortedValues(fs));
    assert NumericFields(SortedValues(fs)) == SortedValues(NumericFields(fs));
  }

  lemma {:induction false} NumericWellFormed(v: Value)
    requires WellFormed(v)
    ensures WellFormed(Numeric(v))
  {
    match v
    case Arr(items) =>
      forall i | 0 <= i < |items|
        ensures WellFormed(Numeric(items[i]))
      {
        NumericWellFormed(items[i]);
      }
    case Obj(fs) =>
      forall i | 0 <= i < |fs|
        ensures WellFormed(Numeric(fs[i].value))
      {
        NumericWellFormed(fs[i].value);
      }
      assert DistinctKeys(Numeric(v).fields);
    case _ =>
  }

  /** Python's `==` cannot tell a value from itself with its keys in order. */
  lemma EqualSorted(v: Value, w: Value)
    requires WellFormed(v)
    ensures Equal(Sorted(v), w) <==> Equal(v, w)
  {
    hide Numeric, Sorted;
    NumericSorted(v);
    NumericWellFormed(v);
    SortedTwice(Numeric(v));
  }

  lemma SortedAtom(v: Value)
    ensures !v.Arr? && !v.Obj? ==> Sorted(v) == v
    ensures (Sorted(v).Str? <==> v.Str?) && (Sorted(v).Bool? <==> v.Bool?) && (Gate.Hashable(Sorted(v)) <==> Gate.Hashable(v))
  {
  }

  lemma CheckSorted(name: Text, spec: Value, v: Value)
    requires WellFormed(v)
    ensures Gate.CheckValue(name, spec, Sorted(v)) == Gate.CheckValue(name, spec, v)
  {
    hide Sorted, Gate.Contains, Gate.CheckText, Lit, Get;
    SortedAtom(v);
    ContainsSorted(GetOrNull(spec, Gate.VALUES), v);
  }

  lemma ContainsSorted(values: Value, v: Value)
    requires WellFormed(v)
    ensures Gate.Contains(values, Sorted(v)) == Gate.Contains(values, v)
  {
    hide Sorted, Equal, WellFormed, Truthy;
    SortedAtom(v);
    if values.Arr? {
      forall i | 0 <= i < |values.items|
        ensures Equal(Sorted(v), values.items[i]) <==> Equal(v, values.items[i])
      {
        EqualSorted(v, values.items[i]);
      }
    }
  }

  /** The same parameters, but that a value may have its keys in order. */
  predicate SameParams(a: seq<Field>, b: seq<Field>) {
    |a| == |b| &&
    forall i :: 0 <= i < |a| ==> a[i].key == b[i].key && (a[i].value == b[i].value || Sorted(a[i].value) == b[i].value)
  }

  lemma FillOneCarried(p: Field, fs: seq<Field>, gs: seq<Field>)
    requires Carried(fs, gs) && WellFormed(Obj(fs))
    ensures var a, b := Gate.FillOne(p, fs), Gate.FillOne(p, gs);
      if a.Ok? then b.Ok? && SameParams([a.value], [b.value]) else a == b
  {
    hide Gate.CheckValue, Sorted, Get;
    assert Lookup(gs, p.key) == SortedOption(Lookup(fs, p.key));
    if Lookup(fs, p.key).Some? {
      var v := Lookup(fs, p.key).value;
      assert Field(p.key, v) in fs;
      CheckSorted(p.key, p.value, v);
    }
  }

  lemma {:induction false} FillCarried(declared: seq<Field>, fs: seq<Field>, gs: seq<Field>)
    requires Carried(fs, gs) && WellFormed(Obj(fs))
    ensures var a, b := Gate.FillParams(declared, fs), Gate.FillParams(declared, gs);
      if a.Ok? then b.Ok? && SameParams(a.value, b.value) else a == b
  {
    hide Gate.FillOne, Carried, WellFormed, Sorted;
    if declared != [] {
      FillOneCarried(declared[0], fs, gs);
      FillCarried(declared[1..], fs, gs);
      if Gate.FillParams(declared, fs).Ok? {
        SameCons(Gate.FillOne(declared[0], fs).value, Gate.FillOne(declared[0], gs).value,
                 Gate.FillParams(declared[1..], fs).value, Gate.FillParams(declared[1..], gs).value);
      }
    }
  }

  lemma SameCons(f: Field, g: Field, a: seq<Field>, b: seq<Field>)
    requires SameParams([f], [g]) && SameParams(a, b)
    ensures SameParams([f] + a, [g] + b)
  {
    hide Sorted;
    assert [f][0] == f && [g][0] == g;
  }

  lemma KeysCarried(fs: seq<Field>, gs: seq<Field>)
    requires Carried(fs, gs)
    ensures Gate.KeySet(fs) == Gate.KeySet(gs)
  {
    hide Sorted;
    forall k
      ensures k in Gate.KeySet(fs) <==> k in Gate.KeySet(gs)
    {
      assert k in Gate.KeySet(fs) <==> HasKey(fs, k);
      assert k in Gate.KeySet(gs) <==> HasKey(gs, k);
      assert Lookup(gs, k) == SortedOption(Lookup(fs, k));
    }
  }

  predicate PlanAgrees(a: Plan, b: Plan) {
    && a.verb == b.verb && SameParams(a.params, b.params)
    && a.blastRadius == b.blastRadius && a.confirm == b.confirm
    && a.reversibleBy == b.reversibleBy && a.returnsSecret == b.returnsSecret
    && (a.params == b.params ==> a.sentence == b.sentence)
  }

  /** Proposals with the same verb and the same parameters up to key order fare alike. */
  lemma {:induction false} GateCarried(show: Gate.Show, catalogue: seq<Field>, verb: Text, fs: seq<Field>, p: Value, q: Value)
    requires GetOrNull(p, Gate.VERB) == Str(verb) == GetOrNull(q, Gate.VERB)
    requires GetOrNull(p, Gate.PARAMS) == Obj(fs) && GetOrNull(q, Gate.PARAMS) == Sorted(Obj(fs))
    requires WellFormed(Obj(fs)) && p.Obj? && q.Obj?
    ensures var a, b := Gate.Gate(show, catalogue, p), Gate.Gate(show, catalogue, q);
      if a.Ok? then b.Ok? && PlanAgrees(a.value, b.value) else a == b
  {
    hide GetOrNull, Gate.FillParams, Gate.Declared, Gate.KeySet, Gate.Sentence, Truthy, Lit, Sorted, Carried, SameParams, Get, WellFormed;
    FieldsDistinct(fs);
    SortedCarries(fs);
    var gs := Sorted(Obj(fs)).fields;
    KeysCarried(fs, gs);
    SuppliedCarried(fs, gs, p, q);
    if Lookup(catalogue, verb).Some? {
      FillCarried(Gate.Declared(Lookup(catalogue, verb).value), fs, gs);
    }
  }

  lemma FieldsDistinct(fs: seq<Field>)
    requires WellFormed(Obj(fs))
    ensures DistinctKeys(fs)
  {
  }

  lemma SuppliedCarried(fs: seq<Field>, gs: seq<Field>, p: Value, q: Value)
    requires Carried(fs, gs)
    requires GetOrNull(p, Gate.PARAMS) == Obj(fs) && GetOrNull(q, Gate.PARAMS) == Obj(gs)
    ensures Gate.SuppliedOf(p) == Some(fs) && Gate.SuppliedOf(q) == Some(gs)
  {
    hide GetOrNull, Lit;
  }

  // ------------------------------------------------------------ from reply to plan

  lemma JsonParts(p: Parser.Proposal)
    requires WellFormed(ProposalJson(p))
    ensures GetOrNull(ProposalJson(p), Gate.VERB) == Str(p.verb)
    ensures GetOrNull(ProposalJson(p), Gate.PARAMS) == Obj(p.params) && WellFormed(Obj(p.params))
    ensures GetOrNull(Sorted(ProposalJson(p)), Gate.VERB) == Str(p.verb)
    ensures GetOrNull(Sorted(ProposalJson(p)), Gate.PARAMS) == Sorted(Obj(p.params))
  {
    hide Lit, Sorted, SortFields;
    TwoKeys();
    var fs := ProposalJson(p).fields;
    SortedCarries(fs);
    LookupFinds(fs, 0);
    LookupFinds(fs, 1);
    assert WellFormed(fs[1].value);
    SortedAtom(Str(p.verb));
  }

  /** Crossing between the two processes as JSON text changes no decision: the gate refuses
      for the same reason, or makes the same plan, up to the order of keys inside a value. */
  lemma {:induction false} CrossingKeepsDecision(show: Gate.Show, catalogue: seq<Field>, reply: Text)
    requires NoSurrogates(reply) && Parser.Judge(reply).Ok?
    ensures var direct := Gate.Gate(show, catalogue, ProposalJson(Parser.Judge(reply).value));
      var crossed := Explained(show, catalogue, reply);
      if direct.Ok? then crossed.Ok? && PlanAgrees(direct.value, crossed.value) else crossed == Err(Refused(direct.error))
  {
    hide Parser.Judge, ProposalJson, Dumps, Loads, Sorted, Gate.Gate, PlanAgrees, GetOrNull, WellFormed, NoSurrogates;
    var p := Parser.Judge(reply).value;
    Crosses(reply);
    JsonParts(p);
    OnlyDicts(ProposalJson(p), Gate.VERB);
    OnlyDicts(Sorted(ProposalJson(p)), Gate.VERB);
    GateCarried(show, catalogue, p.verb, p.params, ProposalJson(p), Sorted(ProposalJson(p)));
  }

  /** A reply made of prose and JSON objects is explained exactly when it is short enough, one
      object names a verb, that one is well shaped, and the gate accepts what it proposes. */
  lemma {:induction false} ExplainExact(show: Gate.Show, catalogue: seq<Field>, pieces: seq<Parser.Piece>, tail: Text)
    requires Parser.IsReply(pieces, tail) && NoSurrogates(Parser.Reply(pieces, tail))
    ensures var reply, offers := Parser.Reply(pieces, tail), Parser.Proposals(pieces);
      Explained(show, catalogue, reply).Ok? <==>
        && |reply| <= Parser.MAX_REPLY && |offers| == 1 && Parser.WellShaped(offers[0])
        && Laws.Accepts(catalogue, ProposalJson(Parser.ProposalOf(offers[0])))
  {
    hide Parser.Judge, Parser.IsReply, Parser.WellShaped, Parser.ProposalOf, Parser.Reply, Parser.Proposals, ProposalJson;
    hide Decide, Gate.Gate, Laws.Accepts, PlanAgrees, NoSurrogates;
    var reply := Parser.Reply(pieces, tail);
    Parser.ParsesExactlyOne(pieces, tail);
    if Parser.Judge(reply).Ok? {
      CrossingKeepsDecision(show, catalogue, reply);
      Laws.GateExact(show, catalogue, ProposalJson(Parser.Judge(reply).value));
    }
  }

  // ------------------------------------------------------------ from plan to log

  const SENTENCE: Text := Lit("sentence")

  /** What the gate prints of a plan. */
  function PlanJson(plan: Plan): Value {
    Obj([
      Field(Gate.VERB, Str(plan.verb)),
      Field(Gate.PARAMS, Obj(plan.params)),
      Field(Gate.BLAST_RADIUS, plan.blastRadius),
      Field(Gate.CONFIRM, plan.confirm),
      Field(Gate.REVERSIBLE_BY, plan.reversibleBy),
      Field(Gate.RETURNS_SECRET, Bool(plan.returnsSecret)),
      Field(SENTENCE, Str(plan.sentence))
    ])
  }

  /** A reply, and what the log is told besides the plan. */
  datatype Turn = Turn(reply: Text, outcome: Text, actor: Text, ts: Text)

  /** What `record` makes of a plan it is handed as JSON text. */
  function FromText(show: Gate.Show, text: Text, t: Turn): Option<Audit.Request> {
    match Loads(text)
    case None => None
    case Some(v) => if v.Obj? then Some(Audit.RequestOf(show, v, t.outcome, t.actor, t.ts)) else None
  }

  ghost predicate GoodPlan(plan: Plan) {
    && WellFormed(Obj(plan.params)) && WellFormed(plan.blastRadius)
    && WellFormed(plan.confirm) && WellFormed(plan.reversibleBy)
  }

  lemma PlanKeys(fs: seq<Field>)
    requires |fs| == 7
    requires fs[0].key == Gate.VERB && fs[1].key == Gate.PARAMS && fs[2].key == Gate.BLAST_RADIUS
    requires fs[3].key == Gate.CONFIRM && fs[4].key == Gate.REVERSIBLE_BY && fs[5].key == Gate.RETURNS_SECRET
    requires fs[6].key == SENTENCE
    ensures DistinctKeys(fs) && forall i :: 0 <= i < |fs| ==> Printable(fs[i].key)
  {
    assert |Gate.VERB| == 4 && |Gate.PARAMS| == 6 && |Gate.BLAST_RADIUS| == 12 && |Gate.CONFIRM| == 7;
    assert |Gate.REVERSIBLE_BY| == 13 && |Gate.RETURNS_SECRET| == 14 && |SENTENCE| == 8;
  }

  lemma SameKeys()
    ensures Audit.VERB == Gate.VERB && Audit.PARAMS == Gate.PARAMS && Audit.BLAST_RADIUS == Gate.BLAST_RADIUS
    ensures Audit.CONFIRM == Gate.CONFIRM && Audit.RETURNS_SECRET == Gate.RETURNS_SECRET
  {
  }

  lemma PlanJsonGood(plan: Plan)
    requires GoodPlan(plan)
    ensures WellFormed(PlanJson(plan)) && PlanJson(plan).Obj?
    ensures var fs := PlanJson(plan).fields;
      DistinctKeys(fs) && forall i :: 0 <= i < |fs| ==> Printable(fs[i].key)
  {
    hide Lit, Printable;
    PlanKeys(PlanJson(plan).fields);
  }

  /** What the log reads under one of the plan's keys. */
  lemma PlanField(plan: Plan, i: nat)
    requires GoodPlan(plan) && i < 7
    ensures |PlanJson(plan).fields| == 7
    ensures var f := PlanJson(plan).fields[i];
      Get(Joined(Sorted(PlanJson(plan))), f.key) == Some(Joined(Sorted(f.value)))
    ensures Joined(Sorted(PlanJson(plan))).Obj?
  {
    hide Lit, Printable, Joined, Sorted, Get, GoodPlan;
    PlanJsonGood(plan);
    Runs.ReadBackField(PlanJson(plan).fields, i);
  }

  lemma ObjTruthy(fs: seq<Field>)
    ensures Truthy(Obj(fs)) || Obj(fs) == Obj([])
  {
  }

  /** A plan reaches the log as the gate made it, when its verb and parameters spell no
      character with two surrogates: the same verb and the same parameters, keys in order. */
  lemma {:induction false} PlanCrosses(show: Gate.Show, plan: Plan, t: Turn)
    requires GoodPlan(plan) && PairFree(plan.verb) && AllPairFree(Obj(plan.params))
    ensures var r := FromText(show, Dumps(PlanJson(plan), SPACE), t);
      && r.Some? && r.value.verb == plan.verb && r.value.params == Sorted(Obj(plan.params))
      && r.value.returnsSecret == plan.returnsSecret
      && r.value.outcome == t.outcome && r.value.actor == t.actor && r.value.ts == t.ts
      && (AllPairFree(plan.blastRadius) ==> r.value.blastRadius == Sorted(plan.blastRadius))
      && (AllPairFree(plan.confirm) ==> r.value.confirm == Sorted(plan.confirm))
  {
    hide Lit, Dumps, Loads, PlanJson, Joined, Sorted, WellFormed, AllPairFree, Get, GoodPlan, Combine, Truthy;
    PlanJsonGood(plan);
    PlanWords(plan);
    LoadsDumps(PlanJson(plan), SPACE);
    PlanReads(plan);
    SameKeys();
    SortedEmptiness(plan.params);
  }

  lemma PlanReads(plan: Plan)
    requires GoodPlan(plan) && PairFree(plan.verb) && AllPairFree(Obj(plan.params))
    ensures var v := Joined(Sorted(PlanJson(plan)));
      && v.Obj? && Get(v, Gate.VERB) == Some(Str(plan.verb)) && Get(v, Gate.PARAMS) == Some(Sorted(Obj(plan.params)))
      && Get(v, Gate.RETURNS_SECRET) == Some(Bool(plan.returnsSecret))
  {
    hide Lit, Joined, Sorted, WellFormed, AllPairFree, Get, Combine;
    PlanField(plan, 0);
    PlanField(plan, 1);
    PlanField(plan, 5);
    SortedAtom(Str(plan.verb));
    SortedAtom(Bool(plan.returnsSecret));
    JoinedAtoms(plan.verb, plan.returnsSecret);
    SortedWellFormed(Obj(plan.params));
    JoinedKeeps(Sorted(Obj(plan.params)));
  }

  lemma PlanWords(plan: Plan)
    requires GoodPlan(plan)
    ensures var v := Joined(Sorted(PlanJson(plan)));
      && (AllPairFree(plan.blastRadius) ==> Get(v, Gate.BLAST_RADIUS) == Some(Sorted(plan.blastRadius)))
      && (AllPairFree(plan.confirm) ==> Get(v, Gate.CONFIRM) == Some(Sorted(plan.confirm)))
  {
    hide Lit, Joined, Sorted, WellFormed, AllPairFree, Get;
    PlanField(plan, 2);
    PlanField(plan, 3);
    SortedWellFormed(plan.blastRadius);
    JoinedKeeps(Sorted(plan.blastRadius));
    SortedWellFormed(plan.confirm);
    JoinedKeeps(Sorted(plan.confirm));
  }

  lemma JoinedAtoms(s: Text, b: bool)
    requires PairFree(s)
    ensures Joined(Str(s)) == Str(s) && Joined(Bool(b)) == Bool(b)
  {
    hide Combine;
    CombineKeeps(s);
  }

  lemma SortedEmptiness(fs: seq<Field>)
    ensures Sorted(Obj(fs)).Obj?
    ensures if Truthy(Sorted(Obj(fs))) then true else Sorted(Obj(fs)) == Obj([])
    ensures forall b: bool :: Truthy(Bool(b)) == b
  {
    ObjTruthy(Sorted(Obj(fs)).fields);
  }

  /** Whatever the plan, the log gets a dictionary it can carry. */
  lemma {:induction false} PlanArrives(show: Gate.Show, plan: Plan, t: Turn)
    requires GoodPlan(plan)
    ensures var r := FromText(show, Dumps(PlanJson(plan), SPACE), t);
      r.Some? && Runs.ValidRequest(r.value)
  {
    hide Lit, Dumps, Loads, PlanJson, Joined, Sorted, WellFormed, Get, GoodPlan, Truthy;
    PlanJsonGood(plan);
    var text := Dumps(PlanJson(plan), SPACE);
    LoadsDumps(PlanJson(plan), SPACE);
    PlanField(plan, 0);
    LoadsGood(text);
    PartsWellFormed(show, Loads(text).value, t);
  }

  lemma PartsWellFormed(show: Gate.Show, v: Value, t: Turn)
    requires WellFormed(v)
    ensures Runs.ValidRequest(Audit.RequestOf(show, v, t.outcome, t.actor, t.ts))
  {
    hide Lit;
    NothingGood();
  }

  // ------------------------------------------------------------ from replies to the log

  /** What is recorded of a run of replies: the accepted ones, each plan handed on as text. */
  function Accepted(show: Gate.Show, catalogue: seq<Field>, turns: seq<Turn>): seq<Audit.Request> {
    if turns == [] then []
    else Recorded(show, catalogue, turns[0]) + Accepted(show, catalogue, turns[1..])
  }

  function Recorded(show: Gate.Show, catalogue: seq<Field>, t: Turn): seq<Audit.Request> {
    match Explained(show, catalogue, t.reply)
    case Err(_) => []
    case Ok(plan) =>
      match FromText(show, Dumps(PlanJson(plan), SPACE), t)
      case Some(r) => [r]
      case None => []
  }

  function ReadingOf(show: Gate.Show, catalogue: seq<Field>, reply: Text): Option<Value> {
    match Parser.Judge(reply)
    case Err(_) => None
    case Ok(p) => Loads(Dumps(ProposalJson(p), SPACE))
  }

  /** An accepted reply's plan is the gate's for the proposal it read. */
  lemma ExplainedFrom(show: Gate.Show, catalogue: seq<Field>, reply: Text)
    requires Explained(show, catalogue, reply).Ok?
    ensures var v := ReadingOf(show, catalogue, reply);
      v.Some? && WellFormed(v.value) && Gate.Gate(show, catalogue, v.value) == Ok(Explained(show, catalogue, reply).value)
  {
    hide Parser.Judge, ProposalJson, Dumps, Loads, Gate.Gate, WellFormed;
    LoadsGood(Dumps(ProposalJson(Parser.Judge(reply).value), SPACE));
  }

  lemma {:induction false} ExplainedGood(show: Gate.Show, catalogue: seq<Field>, reply: Text)
    requires Laws.WellFormedFields(catalogue) && Explained(show, catalogue, reply).Ok?
    ensures GoodPlan(Explained(show, catalogue, reply).value)
  {
    hide Explained, ReadingOf, Gate.Gate, WellFormed, Gate.Sentence, Lit, Get, Gate.Declared, Gate.SuppliedOf, Laws.Fills;
    ExplainedFrom(show, catalogue, reply);
    var v := ReadingOf(show, catalogue, reply).value;
    Laws.GateExact(show, catalogue, v);
    Laws.PlanWellFormed(show, catalogue, v);
    var plan := Explained(show, catalogue, reply).value;
    assert WellFormed(Lookup(catalogue, plan.verb).value);
    Laws.GetWellFormed(Lookup(catalogue, plan.verb).value, Gate.REVERSIBLE_BY);
  }

  lemma {:induction false} AcceptedGood(show: Gate.Show, catalogue: seq<Field>, turns: seq<Turn>)
    requires Laws.WellFormedFields(catalogue)
    ensures forall i :: 0 <= i < |Accepted(show, catalogue, turns)| ==> Runs.ValidRequest(Accepted(show, catalogue, turns)[i])
  {
    hide Explained, Laws.WellFormedFields, WellFormed, FromText, GoodPlan, PlanJson, Dumps, Runs.ValidRequest;
    if turns != [] {
      AcceptedGood(show, catalogue, turns[1..]);
      if Explained(show, catalogue, turns[0].reply).Ok? {
        ExplainedGood(show, catalogue, turns[0].reply);
        PlanArrives(show, Explained(show, catalogue, turns[0].reply).value, turns[0]);
      }
    }
  }

  /** Whatever a model replies, turn after turn, a log that records the accepted plans reads
      back one entry a plan and verifies. */
  lemma {:induction false} RepliesLeaveAGoodLog(hash: Audit.Hash, show: Gate.Show, catalogue: seq<Field>, turns: seq<Turn>)
    requires Runs.PrintsDigests(hash) && Laws.WellFormedFields(catalogue)
    ensures var plans := Accepted(show, catalogue, turns);
      var entries := Runs.StoredAll(hash, [], plans);
      && ReadText(Runs.RecordAll(hash, [], plans)) == Some(entries)
      && Audit.VerdictHolds(hash, entries, if plans == [] then Audit.EmptyLog else Audit.ChainIntact(|plans|))
  {
    hide Accepted, Runs.PrintsDigests, Runs.StoredAll, Runs.RecordAll, ReadText, Audit.VerdictHolds, Runs.ValidRequest;
    AcceptedGood(show, catalogue, turns);
    Runs.FreshRunVerifies(hash, Accepted(show, catalogue, turns));
  }

  // ------------------------------------------------------------ what stands in the log

  ghost predicate FieldsPairFree(fs: seq<Field>) {
    forall i :: 0 <= i < |fs| ==> PairFree(fs[i].key) && AllPairFree(fs[i].value)
  }

  lemma PairFreePart(v: Value, key: Text)
    requires AllPairFree(v)
    ensures AllPairFree(GetOrNull(v, key))
  {
  }

  lemma {:induction false} NamedPairFree(entries: seq<Value>)
    requires forall i :: 0 <= i < |entries| ==> AllPairFree(entries[i])
    ensures FieldsPairFree(Gate.Named(entries))
  {
    hide PairFree;
    if entries != [] {
      NamedPairFree(entries[1..]);
      PairFreePart(entries[0], Gate.NAME);
    }
  }

  lemma DeclaredPairFree(verb: Value)
    requires AllPairFree(verb)
    ensures FieldsPairFree(Gate.Declared(verb))
  {
    hide PairFree, AllPairFree;
    PairFreePart(verb, Gate.PARAMS);
    ItemsPairFree(GetOrNull(verb, Gate.PARAMS));
    NamedPairFree(Gate.ListOf(verb, Gate.PARAMS));
    var named, d := Gate.Named(Gate.ListOf(verb, Gate.PARAMS)), Gate.Declared(verb);
    forall i | 0 <= i < |d|
      ensures PairFree(d[i].key) && AllPairFree(d[i].value)
    {
      assert d[i] in named;
    }
  }

  lemma ItemsPairFree(v: Value)
    requires AllPairFree(v)
    ensures v.Arr? ==> forall i :: 0 <= i < |v.items| ==> AllPairFree(v.items[i])
    ensures v.Obj? ==> FieldsPairFree(v.fields)
  {
  }

  lemma ChosenPairFree(declared: seq<Field>, supplied: seq<Field>, params: seq<Field>)
    requires Laws.Fills(declared, supplied, params) && FieldsPairFree(declared) && FieldsPairFree(supplied)
    ensures AllPairFree(Obj(params))
  {
    hide PairFree;
    forall i | 0 <= i < |params|
      ensures AllPairFree(params[i].value)
    {
      hide AllPairFree;
      PairFreePart(declared[i].value, Gate.DEFAULT);
      assert AllPairFree(Laws.Chosen(declared[i], supplied));
    }
  }

  lemma SuppliedPairFree(proposal: Value)
    requires AllPairFree(proposal) && Gate.SuppliedOf(proposal).Some?
    ensures FieldsPairFree(Gate.SuppliedOf(proposal).value)
  {
    hide PairFree, AllPairFree, Truthy;
    PairFreePart(proposal, Gate.PARAMS);
    ItemsPairFree(GetOrNull(proposal, Gate.PARAMS));
  }

  lemma ReadingPairFree(show: Gate.Show, catalogue: seq<Field>, reply: Text)
    requires NoSurrogates(reply) && Parser.Judge(reply).Ok?
    ensures ReadingOf(show, catalogue, reply).Some? && AllPairFree(ReadingOf(show, catalogue, reply).value)
  {
    hide Parser.Judge, ProposalJson, Dumps, Loads, WellFormed, AllPairFree, NoSurrogates;
    Crosses(reply);
    LoadsGood(Dumps(ProposalJson(Parser.Judge(reply).value), SPACE));
    PrintedClean(ProposalJson(Parser.Judge(reply).value));
  }

  lemma PrintedClean(v: Value)
    requires WellFormed(v)
    ensures NoSurrogates(Dumps(v, SPACE))
  {
    hide Dumps, WellFormed, NoSurrogates;
    assert Printable(SPACE);
    DumpsPrintable(v, SPACE);
    Runs.PrintableClean(Dumps(v, SPACE));
  }

  lemma JudgedOk(show: Gate.Show, catalogue: seq<Field>, reply: Text)
    requires Explained(show, catalogue, reply).Ok?
    ensures Parser.Judge(reply).Ok?
  {
    hide Parser.Judge, Decide;
  }

  lemma PlanPairFree(show: Gate.Show, catalogue: seq<Field>, v: Value, plan: Plan)
    requires Laws.WellFormedFields(catalogue) && FieldsPairFree(catalogue) && AllPairFree(v)
    requires Gate.Gate(show, catalogue, v) == Ok(plan)
    ensures HasKey(catalogue, plan.verb) && PairFree(plan.verb) && AllPairFree(Obj(plan.params))
    ensures DistinctKeys(plan.params)
    ensures Gate.KeySet(plan.params) == Gate.KeySet(Gate.Declared(Lookup(catalogue, plan.verb).value))
  {
    hide Gate.Gate, WellFormed, AllPairFree, PairFree, Gate.Declared, Gate.SuppliedOf, Gate.KeySet, Gate.Sentence, Lit, Laws.Accepts, Laws.Chosen;
    Laws.GateExact(show, catalogue, v);
    var verb := Lookup(catalogue, plan.verb).value;
    assert Field(plan.verb, verb) in catalogue;
    var declared := Gate.Declared(verb);
    AcceptedSupplied(catalogue, v);
    DeclaredPairFree(verb);
    SuppliedPairFree(v);
    Laws.DeclaredDistinct(verb);
    ChosenPairFree(declared, Gate.SuppliedOf(v).value, plan.params);
    Laws.KeysEqual(plan.params, declared);
    assert forall i :: 0 <= i < |plan.params| ==> plan.params[i].key == declared[i].key;
  }

  lemma AcceptedSupplied(catalogue: seq<Field>, v: Value)
    requires Laws.Accepts(catalogue, v)
    ensures Gate.SuppliedOf(v).Some?
  {
    hide Gate.SuppliedOf, Laws.AllFit, Gate.Declared;
  }
}
