/** What the gate says: every field of a plan, and the reason of every refusal, in terms of the
    catalogue's entry and the proposal (steward-resolve.py). */
module GateTells {
  import opened Texts
  import opened TextSearch
  import opened Json
  import opened JsonOrder
  import opened StewardPlan
  import opened StewardGate
  import opened GateLaws

  // ------------------------------------------------------------ the sentence

  /** A parameter in words. */
  function Words(show: Show, f: Field): Text {
    f.key + Lit(": ") + show(f.value)
  }

  predicate Stands(w: Text, t: Text) {
    Find(t, w).Some?
  }

  predicate EndsIn(w: Text, t: Text) {
    |w| <= |t| && t[|t| - |w|..] == w
  }

  lemma EndMore(front: Text, t: Text, w: Text, end: Text)
    requires EndsIn(w, t)
    ensures EndsIn(w + end, front + t + end)
  {
    assert (front + t + end)[|front + t + end| - |w + end|..] == t[|t| - |w|..] + end;
  }

  lemma StandsIn(before: Text, w: Text, after: Text)
    ensures Stands(w, before + w + after)
  {
    hide Find;
    var t := before + w + after;
    assert t[|before|..|before| + |w|] == w;
    assert At(t, w, |before|);
  }

  /** The head, the parameters in this order with commas between them, and a bracket around. */
  ghost predicate ReadsAs(show: Show, head: Text, gs: seq<Field>, sentence: Text)
    requires gs != []
  {
    && head + Lit(" (") + Words(show, gs[0]) <= sentence
    && EndsIn(Words(show, gs[|gs| - 1]) + Lit(")"), sentence)
    && (forall i :: 0 <= i < |gs| ==> Stands(Words(show, gs[i]), sentence))
    && (forall i :: 0 <= i < |gs| - 1 ==> Stands(Words(show, gs[i]) + Lit(", ") + Words(show, gs[i + 1]), sentence))
  }

  lemma DetailIsWords(show: Show, f: Field)
    ensures Detail(show, f) == Words(show, f)
  {
  }

  lemma {:induction false} JoinEnds(show: Show, gs: seq<Field>)
    requires gs != []
    ensures Words(show, gs[0]) <= JoinDetails(show, gs)
    ensures EndsIn(Words(show, gs[|gs| - 1]), JoinDetails(show, gs))
  {
    hide Lit, Words, Detail;
    DetailIsWords(show, gs[0]);
    if |gs| > 1 {
      JoinEnds(show, gs[1..]);
      var front := Detail(show, gs[0]) + Lit(", ");
      EndMore(front, JoinDetails(show, gs[1..]), Words(show, gs[|gs| - 1]), []);
      assert Words(show, gs[|gs| - 1]) + [] == Words(show, gs[|gs| - 1]);
      assert front + JoinDetails(show, gs[1..]) + [] == JoinDetails(show, gs);
    }
  }

  lemma {:induction false} JoinNeighbours(show: Show, gs: seq<Field>, i: nat) returns (before: Text, after: Text)
    requires i < |gs| - 1
    ensures JoinDetails(show, gs) == before + (Words(show, gs[i]) + Lit(", ") + Words(show, gs[i + 1])) + after
  {
    hide Lit, Words, Detail;
    DetailIsWords(show, gs[0]);
    if i == 0 {
      JoinEnds(show, gs[1..]);
      var rest := JoinDetails(show, gs[1..]);
      before, after := [], rest[|Words(show, gs[1])|..];
      assert rest == Words(show, gs[1]) + after;
    } else {
      var inner;
      inner, after := JoinNeighbours(show, gs[1..], i - 1);
      before := Detail(show, gs[0]) + Lit(", ") + inner;
      assert gs[1..][i - 1] == gs[i] && gs[1..][i] == gs[i + 1];
      Regroup(Detail(show, gs[0]) + Lit(", "), inner, Words(show, gs[i]) + Lit(", ") + Words(show, gs[i + 1]), after);
    }
  }

  lemma Regroup(a: Text, b: Text, c: Text, d: Text)
    ensures a + (b + c + d) == (a + b) + c + d
  {
  }

  lemma JoinReads(show: Show, head: Text, gs: seq<Field>)
    requires gs != []
    ensures ReadsAs(show, head, gs, head + Lit(" (") + JoinDetails(show, gs) + Lit(")"))
  {
    hide Lit, Words, JoinDetails, Detail, Stands, EndsIn;
    var open := head + Lit(" (");
    var joined := JoinDetails(show, gs);
    var sentence := open + joined + Lit(")");
    JoinEnds(show, gs);
    EndMore(open, joined, Words(show, gs[|gs| - 1]), Lit(")"));
    assert joined == Words(show, gs[0]) + joined[|Words(show, gs[0])|..];
    forall i | 0 <= i < |gs|
      ensures Stands(Words(show, gs[i]), sentence)
    {
      var before, after := DetailInJoin(show, gs, i);
      DetailIsWords(show, gs[i]);
      Within(open, before, Words(show, gs[i]), after, Lit(")"));
    }
    forall i | 0 <= i < |gs| - 1
      ensures Stands(Words(show, gs[i]) + Lit(", ") + Words(show, gs[i + 1]), sentence)
    {
      var before, after := JoinNeighbours(show, gs, i);
      Within(open, before, Words(show, gs[i]) + Lit(", ") + Words(show, gs[i + 1]), after, Lit(")"));
    }
  }

  lemma Within(open: Text, before: Text, w: Text, after: Text, close: Text)
    ensures Stands(w, open + (before + w + after) + close)
  {
    hide Stands;
    assert open + (before + w + after) + close == (open + before) + w + (after + close);
    StandsIn(open + before, w, after + close);
  }

  /** What a human is asked to approve: the catalogue's own words, and if there are parameters
      every one of them with its value, in the order of their names. */
  ghost predicate SentenceSays(show: Show, verb: Value, params: seq<Field>, sentence: Text) {
    var head := show(match Get(verb, SUMMARY)
                     case Some(summary) => summary
                     case None => match Get(verb, NAME) case Some(name) => name case None => Str([]));
    if params == [] then sentence == head
    else exists gs :: InKeyOrder(params, gs) && ReadsAs(show, head, gs, sentence)
  }

  ghost predicate InKeyOrder(params: seq<Field>, gs: seq<Field>) {
    gs != [] && KeysAscend(gs) && |gs| == |params| && forall f :: f in gs <==> f in params
  }

  lemma SentenceExact(show: Show, verb: Value, params: seq<Field>)
    requires DistinctKeys(params)
    ensures SentenceSays(show, verb, params, Sentence(show, verb, params))
  {
    hide Lit, JoinDetails, SortFields, Get, ReadsAs, KeysAscend;
    if params != [] {
      var summary := OrElse(Get(verb, SUMMARY), OrElse(Get(verb, NAME), Str([])));
      var gs := SortFields(params);
      SortAscends(params);
      JoinReads(show, show(summary), gs);
      assert InKeyOrder(params, gs);
    }
  }

  // ------------------------------------------------------------ the plan

  /** The plan's own account of its verb: what the catalogue says, or the careful answer where
      it says nothing. */
  ghost predicate Tells(show: Show, verb: Value, plan: Plan) {
    && plan.blastRadius == (match Get(verb, BLAST_RADIUS) case Some(b) => b case None => DISRUPTIVE)
    && plan.confirm == (match Get(verb, CONFIRM) case Some(c) => c case None => STRONG)
    && plan.reversibleBy == (match Get(verb, REVERSIBLE_BY) case Some(r) => r case None => Null)
    && (plan.returnsSecret <==> Get(verb, RETURNS_SECRET).Some? && Truthy(Get(verb, RETURNS_SECRET).value))
    && SentenceSays(show, verb, plan.params, plan.sentence)
  }

  /** Every plan that comes out: its verb is the one proposed, its parameters are the declared
      ones with the values proposed or else the defaults, and the rest is the catalogue's. */
  lemma PlanTells(show: Show, catalogue: seq<Field>, proposal: Value, plan: Plan)
    requires Gate(show, catalogue, proposal) == Ok(plan)
    ensures GetOrNull(proposal, VERB) == Str(plan.verb) && HasKey(catalogue, plan.verb)
    ensures SuppliedOf(proposal).Some?
    ensures var verb := Lookup(catalogue, plan.verb).value;
      Tells(show, verb, plan) && Fills(Declared(verb), SuppliedOf(proposal).value, plan.params)
  {
    hide Gate, Fills, SentenceSays, Sentence, Lit, Declared, SuppliedOf, Get, Lookup, Accepts;
    GateExact(show, catalogue, proposal);
    var verb := Lookup(catalogue, plan.verb).value;
    AcceptsSupplied(catalogue, proposal);
    DeclaredDistinct(verb);
    FilledDistinct(Declared(verb), SuppliedOf(proposal).value, plan.params);
    SentenceExact(show, verb, plan.params);
    SecretIs(verb);
  }

  lemma SecretIs(verb: Value)
    ensures Truthy(GetOrNull(verb, RETURNS_SECRET)) <==>
      Get(verb, RETURNS_SECRET).Some? && Truthy(Get(verb, RETURNS_SECRET).value)
  {
    hide Get;
  }

  lemma AcceptsSupplied(catalogue: seq<Field>, proposal: Value)
    requires Accepts(catalogue, proposal)
    ensures SuppliedOf(proposal).Some?
  {
    hide SuppliedOf, AllFit, Declared, NamesRead;
  }

  lemma FilledDistinct(declared: seq<Field>, supplied: seq<Field>, params: seq<Field>)
    requires DistinctKeys(declared) && Fills(declared, supplied, params)
    ensures DistinctKeys(params)
  {
    assert forall i :: 0 <= i < |params| ==> params[i].key == declared[i].key;
  }

  /** Parameters left out, null or otherwise empty are none; any other must be a dictionary. */
  lemma SuppliedExact(proposal: Value)
    ensures var params := GetOrNull(proposal, PARAMS);
      && (params.Obj? ==> SuppliedOf(proposal) == Some(params.fields))
      && (!params.Obj? && !Truthy(params) ==> SuppliedOf(proposal) == Some([]))
      && (!params.Obj? && Truthy(params) ==> SuppliedOf(proposal) == None)
  {
    hide GetOrNull;
  }

  // ------------------------------------------------------------ the refusals

  /** The reason is true of the value and its declaration. */
  ghost predicate TrueOfValue(name: Text, spec: Value, value: Value, e: Refusal) {
    var ptype := GetOrNull(spec, TYPE);
    match e
    case NotABool(n) => n == name && ptype == BOOL && !value.Bool?
    case NotAmongValues(n) => n == name && ptype == ENUM && !Among(value, GetOrNull(spec, VALUES))
    case NotText(n) => n == name && ptype != BOOL && ptype != ENUM && !value.Str?
    case NoLimit(n) =>
      n == name && value.Str? &&
      (match Get(spec, MAX_LENGTH) case Some(limit) => limit == Null case None => !IsReference(ptype))
    case TooLong(n, length) => n == name && value.Str? && length == |value.s| && !LimitAllows(spec, length)
    case Blank(n) => n == name && value.Str? && AllSpace(value.s)
    case NotADuration(n) => n == name && ptype == DURATION && value.Str? && !IsDuration(value.s)
    case Raises => Clashes(spec, value)
    case _ => false
  }

  lemma ValueTells(name: Text, spec: Value, value: Value)
    requires CheckValue(name, spec, value).Some?
    ensures TrueOfValue(name, spec, value, CheckValue(name, spec, value).value)
  {
    hide LooksLikeDuration, IsDuration, Limit, LimitAllows, Contains, Among, Exceeds, AtLeast, Clashes, IsReference, Strip, AllSpace, Get;
    ClashExact(name, spec, value);
    ContainsExact(GetOrNull(spec, VALUES), value);
    if value.Str? {
      ExceedsExact(|value.s|, Limit(spec));
      LimitExact(spec, |value.s|);
      NoLimitIs(spec);
      DurationExact(value.s);
      BlankIs(value.s);
    }
  }

  lemma NoLimitIs(spec: Value)
    ensures Limit(spec) == Null <==>
      match Get(spec, MAX_LENGTH) case Some(limit) => limit == Null case None => !IsReference(GetOrNull(spec, TYPE))
  {
    hide Get, IsReference;
  }

  lemma BlankIs(s: Text)
    ensures Strip(s) == [] ==> AllSpace(s)
  {
    hide Strip;
    var i, j := StripShape(s);
    assert Strip(s) == [] ==> s == s[..i] + s[i..];
  }

  /** The first declared parameter that does not fit, and why. */
  ghost predicate FirstFault(declared: seq<Field>, supplied: seq<Field>, i: nat, e: Refusal) {
    && i < |declared| && AllFit(declared[..i], supplied)
    && match Lookup(supplied, declared[i].key)
       case Some(value) => TrueOfValue(declared[i].key, declared[i].value, value, e)
       case None => e == Missing(declared[i].key) && Get(declared[i].value, DEFAULT) == None
  }

  lemma OneTells(p: Field, supplied: seq<Field>)
    requires FillOne(p, supplied).Err?
    ensures FirstFault([p], supplied, 0, FillOne(p, supplied).error)
  {
    hide CheckValue, TrueOfValue, Get;
    NoneFit([p], supplied);
    if Lookup(supplied, p.key).Some? {
      ValueTells(p.key, p.value, Lookup(supplied, p.key).value);
    }
  }

  lemma {:induction false} FillTells(declared: seq<Field>, supplied: seq<Field>)
    requires FillParams(declared, supplied).Err?
    ensures exists i: nat :: FirstFault(declared, supplied, i, FillParams(declared, supplied).error)
  {
    hide FillOne, Fits, TrueOfValue, AllFit, Get;
    var e := FillParams(declared, supplied).error;
    FillOneExact(declared[0], supplied);
    if FillOne(declared[0], supplied).Err? {
      OneTells(declared[0], supplied);
      NoneFit(declared, supplied);
      assert FirstFault(declared, supplied, 0, e);
    } else {
      var tail := declared[1..];
      FillTells(tail, supplied);
      var i: nat :| FirstFault(tail, supplied, i, e);
      FitCons(declared, supplied, i + 1);
      assert tail[i] == declared[i + 1];
      assert FirstFault(declared, supplied, i + 1, e);
    }
  }

  /** The reason is true of the verb's declarations and what is supplied for them. */
  ghost predicate TrueOfVerb(verb: Value, supplied: seq<Field>, e: Refusal) {
    var declared := Declared(verb);
    if !NamesRead(GetOrNull(verb, PARAMS)) then e == Raises
    else if !(KeySet(supplied) <= KeySet(declared)) then
      e.UnknownParams? && forall n :: n in e.names <==> n in KeySet(supplied) && n !in KeySet(declared)
    else
      || (exists i: nat :: FirstFault(declared, supplied, i, e))
      || (e == SelfContradiction && AllFit(declared, supplied) &&
          OrElse(Get(verb, BLAST_RADIUS), DISRUPTIVE) == DISRUPTIVE && OrElse(Get(verb, CONFIRM), STRONG) == NONE)
  }

  /** The reason a proposal is refused for is a true one, and the first that applies. */
  ghost predicate TrueOfProposal(catalogue: seq<Field>, proposal: Value, e: Refusal) {
    var name, params := GetOrNull(proposal, VERB), GetOrNull(proposal, PARAMS);
    if !proposal.Obj? then e == Raises
    else if !name.Str? || name.s == [] then e == NamesNoVerb
    else if !HasKey(catalogue, name.s) then e == NoSuchVerb
    else if params.Obj? then TrueOfVerb(Lookup(catalogue, name.s).value, params.fields, e)
    else if Truthy(params) then e == ParamsNotAMapping
    else TrueOfVerb(Lookup(catalogue, name.s).value, [], e)
  }

  /** Every refusal says what is wrong, and nothing that came before it was wrong. */
  lemma RefusalTells(show: Show, catalogue: seq<Field>, proposal: Value)
    requires Gate(show, catalogue, proposal).Err?
    ensures TrueOfProposal(catalogue, proposal, Gate(show, catalogue, proposal).error)
  {
    hide FillParams, TrueOfVerb, AllFit, Sentence, Lit, Declared, KeySet, SuppliedOf, NamesRead, GetOrNull, Get;
    SuppliedExact(proposal);
    OnlyDicts(proposal, VERB);
    var name := GetOrNull(proposal, VERB);
    if name.Str? && name.s != [] && HasKey(catalogue, name.s) && SuppliedOf(proposal).Some? {
      VerbTells(show, catalogue, proposal);
    }
  }

  lemma VerbTells(show: Show, catalogue: seq<Field>, proposal: Value)
    requires Gate(show, catalogue, proposal).Err?
    requires GetOrNull(proposal, VERB).Str? && GetOrNull(proposal, VERB).s != [] && SuppliedOf(proposal).Some?
    requires HasKey(catalogue, GetOrNull(proposal, VERB).s)
    ensures TrueOfVerb(Lookup(catalogue, GetOrNull(proposal, VERB).s).value, SuppliedOf(proposal).value,
                       Gate(show, catalogue, proposal).error)
  {
    hide FillParams, FirstFault, AllFit, Sentence, Lit, Declared, KeySet, SuppliedOf, NamesRead, GetOrNull, Get;
    OnlyDicts(proposal, VERB);
    var verb := Lookup(catalogue, GetOrNull(proposal, VERB).s).value;
    var declared, supplied := Declared(verb), SuppliedOf(proposal).value;
    NothingOutside(KeySet(supplied), KeySet(declared));
    if FillParams(declared, supplied).Err? {
      FillTells(declared, supplied);
    } else {
      FillExact(declared, supplied);
    }
  }
}
