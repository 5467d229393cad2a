/** From the words of a reply to the words of the log: what a reply offers is what the plan
    does, and what the plan does is what the log says (engine/steward/sambuca-steward). */
module PipelineTells {
  import opened Texts
  import opened Json
  import opened JsonOrder
  import opened JsonText
  import opened JsonRoundTrip
  import opened JsonCanonical
  import opened JsonParsed
  import opened AuditLines
  import opened StewardPlan
  import opened StewardPipeline
  import Parser = StewardParse
  import Gate = StewardGate
  import Laws = GateLaws
  import GateTells
  import Audit = StewardAudit
  import Runs = AuditRuns

  // ------------------------------------------------------------ from reply to plan

  /** The one object the reply offers names this verb, and has these parameters or none. */
  predicate Asks(v: Value, verb: Text, fs: seq<Field>) {
    && Get(v, Lit("verb")) == Some(Str(verb)) && !AllSpace(verb)
    && match Get(v, Lit("params"))
       case None => fs == []
       case Some(Null) => fs == []
       case Some(params) => params == Obj(fs)
  }

  /** The declared parameters in order, each with the value asked for, its keys in order, or
      with the default. */
  predicate Arrived(declared: seq<Field>, fs: seq<Field>, params: seq<Field>) {
    && |params| == |declared|
    && forall i :: 0 <= i < |declared| ==>
         && params[i].key == declared[i].key
         && params[i].value == match Lookup(fs, declared[i].key)
                               case Some(x) => Sorted(x)
                               case None => GetOrNull(declared[i].value, Gate.DEFAULT)
  }

  lemma AcceptsSame(catalogue: seq<Field>, p: Value, q: Value)
    requires GetOrNull(p, Gate.VERB) == GetOrNull(q, Gate.VERB) && GetOrNull(p, Gate.PARAMS) == GetOrNull(q, Gate.PARAMS)
    ensures Laws.Accepts(catalogue, p) <==> Laws.Accepts(catalogue, q)
  {
    hide GetOrNull, Laws.AllFit, Gate.Declared, Gate.KeySet, Gate.NamesRead, Get;
  }

  lemma AsksJudged(reply: Text, v: Value, verb: Text, fs: seq<Field>)
    requires |reply| <= 65536 && Asks(v, verb, fs) && Parser.Decides(|reply|, [v], Parser.Judge(reply))
    ensures Parser.Judge(reply) == Ok(Parser.Proposal(Strip(verb), fs))
  {
    hide Parser.Judge, Strip, Lit, AllSpace, Get;
  }

  lemma ArrivedFrom(declared: seq<Field>, fs: seq<Field>, gs: seq<Field>, params: seq<Field>)
    requires Carried(fs, gs) && Laws.Fills(declared, gs, params)
    ensures Arrived(declared, fs, params)
  {
    hide Sorted, Get;
    forall i | 0 <= i < |declared|
      ensures params[i].value == match Lookup(fs, declared[i].key)
                                 case Some(x) => Sorted(x)
                                 case None => GetOrNull(declared[i].value, Gate.DEFAULT)
    {
      assert Lookup(gs, declared[i].key) == SortedOption(Lookup(fs, declared[i].key));
    }
  }

  /** From prose and objects to the plan: if the reply is short enough and one object names a
      verb, what it asks for is accepted exactly if the catalogue accepts it, and the plan is of
      that verb, with those very parameters, and says of the verb what the catalogue says. */
  lemma {:induction false} AskedIsPlanned(
    show: Gate.Show, catalogue: seq<Field>, pieces: seq<Parser.Piece>, tail: Text, v: Value, verb: Text, fs: seq<Field>, q: Value)
    requires Parser.IsReply(pieces, tail) && NoSurrogates(Parser.Reply(pieces, tail)) && |Parser.Reply(pieces, tail)| <= 65536
    requires Parser.Offered(pieces) == [v] && Asks(v, verb, fs)
    requires GetOrNull(q, Gate.VERB) == Str(Strip(verb)) && GetOrNull(q, Gate.PARAMS) == Obj(fs)
    ensures var r := Explained(show, catalogue, Parser.Reply(pieces, tail));
      && (r.Ok? <==> Laws.Accepts(catalogue, q))
      && (r.Ok? ==>
            && r.value.verb == Strip(verb) && HasKey(catalogue, Strip(verb))
            && GateTells.Tells(show, Lookup(catalogue, Strip(verb)).value, r.value)
            && Arrived(Gate.Declared(Lookup(catalogue, Strip(verb)).value), fs, r.value.params))
  {
    hide Parser.Judge, Parser.IsReply, Parser.Reply, Parser.Offered, Parser.Decides, Asks, ProposalJson, Dumps, Loads, Sorted,
         Gate.Gate, Laws.Accepts, PlanAgrees, NoSurrogates, GateTells.Tells, Arrived, Carried, Strip, GetOrNull, WellFormed,
         Gate.Declared, Laws.Fills, Gate.SuppliedOf, Lit;
    var reply := Parser.Reply(pieces, tail);
    Parser.ReplyDecided(pieces, tail);
    AsksJudged(reply, v, verb, fs);
    var p := Parser.Judge(reply).value;
    Crosses(reply);
    JsonParts(p);
    CrossingKeepsDecision(show, catalogue, reply);
    Laws.GateExact(show, catalogue, ProposalJson(p));
    AcceptsSame(catalogue, ProposalJson(p), q);
    var crossed := Sorted(ProposalJson(p));
    if Gate.Gate(show, catalogue, crossed).Ok? {
      var plan := Gate.Gate(show, catalogue, crossed).value;
      GateTells.PlanTells(show, catalogue, crossed, plan);
      FieldsDistinct(fs);
      SortedCarries(fs);
      GateTells.SuppliedExact(crossed);
      ArrivedFrom(Gate.Declared(Lookup(catalogue, plan.verb).value), fs, Sorted(Obj(fs)).fields, plan.params);
    }
  }

  // ------------------------------------------------------------ from plan to log

  /** The turns whose reply was accepted. */
  function Kept(show: Gate.Show, catalogue: seq<Field>, turns: seq<Turn>): (kept: seq<Turn>)
    ensures forall t :: t in kept ==> t in turns && Explained(show, catalogue, t.reply).Ok?
  {
    if turns == [] then []
    else (if Explained(show, catalogue, turns[0].reply).Ok? then [turns[0]] else []) + Kept(show, catalogue, turns[1..])
  }

  lemma {:induction false} AcceptedKept(show: Gate.Show, catalogue: seq<Field>, turns: seq<Turn>)
    requires Laws.WellFormedFields(catalogue)
    ensures |Accepted(show, catalogue, turns)| == |Kept(show, catalogue, turns)|
    ensures forall i :: 0 <= i < |Kept(show, catalogue, turns)| ==>
      Recorded(show, catalogue, Kept(show, catalogue, turns)[i]) == [Accepted(show, catalogue, turns)[i]]
  {
    hide Explained, FromText, GoodPlan, PlanJson, Dumps, Runs.ValidRequest, Laws.WellFormedFields;
    if turns != [] {
      AcceptedKept(show, catalogue, turns[1..]);
      if Explained(show, catalogue, turns[0].reply).Ok? {
        ExplainedGood(show, catalogue, turns[0].reply);
        PlanArrives(show, Explained(show, catalogue, turns[0].reply).value, turns[0]);
      }
    }
  }

  lemma {:induction false} StoredAt(hash: Audit.Hash, entries: seq<Value>, rs: seq<Audit.Request>, i: nat) returns (prev: Text)
    requires i < |rs|
    ensures Runs.StoredAll(hash, entries, rs)[|entries| + i] == Runs.Stored(rs[i], prev)
    decreases rs
  {
    hide Runs.Stored;
    var next := entries + [Runs.Stored(rs[0], Audit.LastDigest(hash, entries))];
    if i > 0 {
      prev := StoredAt(hash, next, rs[1..], i - 1);
    } else {
      prev := Audit.LastDigest(hash, entries);
      StoredKeeps(hash, next, rs[1..]);
    }
  }

  lemma {:induction false} StoredKeeps(hash: Audit.Hash, entries: seq<Value>, rs: seq<Audit.Request>)
    ensures entries <= Runs.StoredAll(hash, entries, rs)
    decreases rs
  {
    hide Runs.Stored;
    if rs != [] {
      StoredKeeps(hash, entries + [Runs.Stored(rs[0], Audit.LastDigest(hash, entries))], rs[1..]);
    }
  }

  /** The entry says who asked for what and when: the verb and the parameters of the plan that
      was made of the turn's reply, and what the catalogue says of that verb. */
  predicate TurnLogged(catalogue: seq<Field>, t: Turn, plan: Plan, e: Value) {
    && Get(e, Audit.VERB) == Some(Str(plan.verb)) && Get(e, Audit.PARAMS) == Some(Sorted(Obj(plan.params)))
    && Get(e, Audit.BLAST_RADIUS) == Some(Sorted(plan.blastRadius)) && Get(e, Audit.CONFIRM) == Some(Sorted(plan.confirm))
    && Get(e, Audit.RETURNED_SECRET) == Some(Bool(plan.returnsSecret))
    && Get(e, Audit.TS) == Some(Str(Combine(t.ts))) && Get(e, Audit.ACTOR) == Some(Str(Combine(t.actor)))
    && Get(e, Audit.OUTCOME) == Some(Str(Combine(t.outcome)))
    && HasKey(catalogue, plan.verb)
    && Gate.KeySet(plan.params) == Gate.KeySet(Gate.Declared(Lookup(catalogue, plan.verb).value))
  }

  lemma StoredSays(r: Audit.Request, prev: Text)
    ensures var e := Runs.Stored(r, prev);
      && Get(e, Audit.VERB) == Some(Str(Combine(r.verb))) && Get(e, Audit.PARAMS) == Some(Joined(Sorted(r.params)))
      && Get(e, Audit.BLAST_RADIUS) == Some(Joined(Sorted(r.blastRadius)))
      && Get(e, Audit.CONFIRM) == Some(Joined(Sorted(r.confirm)))
      && Get(e, Audit.RETURNED_SECRET) == Some(Bool(r.returnsSecret))
      && Get(e, Audit.TS) == Some(Str(Combine(r.ts))) && Get(e, Audit.ACTOR) == Some(Str(Combine(r.actor)))
      && Get(e, Audit.OUTCOME) == Some(Str(Combine(r.outcome)))
  {
    hide Runs.Stored, Lit, Get, Sorted, Joined, Combine;
    var e := Audit.Entry(r, prev);
    Runs.StoredReadsBack(r, prev);
    var fs := e.fields;
    assert fs[0] in fs && fs[1] in fs && fs[2] in fs && fs[3] in fs && fs[4] in fs && fs[5] in fs && fs[6] in fs && fs[7] in fs;
    TextReads(r.verb);
    TextReads(r.ts);
    TextReads(r.actor);
    TextReads(r.outcome);
    BoolReads(r.returnsSecret);
  }

  lemma TextReads(s: Text)
    ensures Joined(Sorted(Str(s))) == Str(Combine(s))
  {
  }

  lemma BoolReads(b: bool)
    ensures Joined(Sorted(Bool(b))) == Bool(b)
  {
  }

  lemma PairFreeReads(v: Value)
    requires WellFormed(v) && AllPairFree(v)
    ensures Joined(Sorted(Sorted(v))) == Sorted(v)
  {
    hide Joined, Sorted, WellFormed, AllPairFree;
    SortedTwice(v);
    SortedWellFormed(v);
    JoinedKeeps(Sorted(v));
  }

  lemma WordsPairFree(show: Gate.Show, catalogue: seq<Field>, v: Value, plan: Plan)
    requires FieldsPairFree(catalogue) && Gate.Gate(show, catalogue, v) == Ok(plan)
    ensures AllPairFree(plan.blastRadius) && AllPairFree(plan.confirm)
  {
    hide Gate.Gate, AllPairFree, PairFree, Get, Lit, GateTells.SentenceSays, Laws.Fills, Gate.Declared, Gate.SuppliedOf;
    GateTells.PlanTells(show, catalogue, v, plan);
    var verb := Lookup(catalogue, plan.verb).value;
    assert Field(plan.verb, verb) in catalogue;
    PairFreePart(verb, Gate.BLAST_RADIUS);
    PairFreePart(verb, Gate.CONFIRM);
    CautiousPairFree();
  }

  lemma CautiousPairFree()
    ensures AllPairFree(Gate.DISRUPTIVE) && AllPairFree(Gate.STRONG)
  {
  }

  /** One accepted reply, recorded anywhere in a log. */
  lemma {:induction false} OneLogged(show: Gate.Show, catalogue: seq<Field>, t: Turn, r: Audit.Request, prev: Text)
    requires Laws.WellFormedFields(catalogue) && FieldsPairFree(catalogue) && NoSurrogates(t.reply)
    requires Explained(show, catalogue, t.reply).Ok? && Recorded(show, catalogue, t) == [r]
    ensures TurnLogged(catalogue, t, Explained(show, catalogue, t.reply).value, Runs.Stored(r, prev))
  {
    hide Explained, ReadingOf, Gate.Gate, WellFormed, AllPairFree, PairFree, Gate.Declared, Gate.KeySet, Lit, FromText,
         PlanJson, Dumps, Sorted, Joined, NoSurrogates, Runs.Stored, Combine, Get, Laws.WellFormedFields, FieldsPairFree;
    var plan := Explained(show, catalogue, t.reply).value;
    ExplainedGood(show, catalogue, t.reply);
    ExplainedFrom(show, catalogue, t.reply);
    JudgedOk(show, catalogue, t.reply);
    ReadingPairFree(show, catalogue, t.reply);
    var v := ReadingOf(show, catalogue, t.reply).value;
    PlanPairFree(show, catalogue, v, plan);
    WordsPairFree(show, catalogue, v, plan);
    PlanCrosses(show, plan, t);
    StoredSays(r, prev);
    CombineKeeps(plan.verb);
    PairFreeReads(Obj(plan.params));
    PairFreeReads(plan.blastRadius);
    PairFreeReads(plan.confirm);
  }

  /** Over a whole run of replies the log, read back, has one entry for each accepted one, in
      order, and each says what that reply's plan said. */
  lemma {:induction false} LogOfCatalogue(hash: Audit.Hash, show: Gate.Show, catalogue: seq<Field>, turns: seq<Turn>)
    requires Runs.PrintsDigests(hash) && Laws.WellFormedFields(catalogue) && FieldsPairFree(catalogue)
    requires forall i :: 0 <= i < |turns| ==> NoSurrogates(turns[i].reply)
    ensures var log := ReadText(Runs.RecordAll(hash, [], Accepted(show, catalogue, turns)));
      var kept := Kept(show, catalogue, turns);
      && log.Some? && |log.value| == |kept|
      && forall i :: 0 <= i < |kept| ==>
           TurnLogged(catalogue, kept[i], Explained(show, catalogue, kept[i].reply).value, log.value[i])
  {
    hide Explained, Recorded, Accepted, TurnLogged, Runs.PrintsDigests, Laws.WellFormedFields, FieldsPairFree, NoSurrogates,
         ReadText, Runs.RecordAll, Runs.StoredAll, Runs.Stored, Audit.VerdictHolds;
    var kept, rs := Kept(show, catalogue, turns), Accepted(show, catalogue, turns);
    RepliesLeaveAGoodLog(hash, show, catalogue, turns);
    AcceptedKept(show, catalogue, turns);
    var log := ReadText(Runs.RecordAll(hash, [], rs)).value;
    forall i | 0 <= i < |kept|
      ensures TurnLogged(catalogue, kept[i], Explained(show, catalogue, kept[i].reply).value, log[i])
    {
      var prev := StoredAt(hash, [], rs, i);
      assert kept[i] in turns;
      OneLogged(show, catalogue, kept[i], rs[i], prev);
    }
  }
}
