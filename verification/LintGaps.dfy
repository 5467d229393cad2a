/** Documents the linter finds nothing in, and what the gate then does with them: each gap
    between tools/steward-lint.py and engine/steward/steward-resolve.py, shown at an example. */
module LintGaps {
  import opened Texts
  import opened Json
  import opened JsonOrder
  import opened TextSearch
  import opened StewardPlan
  import opened StewardGate
  import opened StewardLint
  import opened LintedGate

  const WORD: Text := Lit("x")

  // ------------------------------------------------------------ looking things up

  lemma {:induction false} LookupConcat(a: seq<Field>, b: seq<Field>, key: Text)
    ensures Lookup(a + b, key) == if HasKey(a, key) then Lookup(a, key) else Lookup(b, key)
  {
    if a == [] {
      assert a + b == b;
    } else {
      HasKeyCons(a);
      assert (a + b)[1..] == a[1..] + b;
      LookupConcat(a[1..], b, key);
    }
  }

  lemma KeyLengths()
    ensures |NAME| == 4 && |VERBS| == 5 && |PARAMS| == 6 && |TYPE| == 4 && |VALUES| == 6 && |DEFAULT| == 7
    ensures |MAX_LENGTH| == 10 && |CONFIRM| == 7 && |BLAST_RADIUS| == 12 && |REVERSIBLE_BY| == 13
    ensures |RETURNS_SECRET| == 14 && |SUMMARY| == 7 && |VERSION| == 7 && |EXCLUDED| == 8 && |SUBJECT| == 7
    ensures |REASON| == 6 && |READ_ONLY| == 9 && |NOTES| == 5 && |SPEECH_EXAMPLES| == 15 && |VERB| == 4
    ensures NAME != TYPE && CONFIRM != SUMMARY && NAME != VERB
  {
    assert NAME[0] != TYPE[0] && CONFIRM[0] != SUMMARY[0] && NAME[0] != VERB[0];
  }

  // ------------------------------------------------------------ documents

  /** What every verb here has. */
  function Common(blast: Value): seq<Field> {
    [
      Field(SUMMARY, Str(WORD)),
      Field(BLAST_RADIUS, blast),
      Field(CONFIRM, STANDARD),
      Field(SPEECH_EXAMPLES, Arr([Str(WORD)]))
    ]
  }

  function Verb(blast: Value, more: seq<Field>): Value {
    Obj(Common(blast) + more)
  }

  function Document(verbs: seq<Value>): Value {
    Obj([
      Field(VERSION, Int(1)),
      Field(VERBS, Arr(verbs)),
      Field(EXCLUDED, Arr([Obj([Field(SUBJECT, Str(WORD)), Field(REASON, Str(WORD))])]))
    ])
  }

  /** Fields that only add a name, parameters or a reversal. */
  predicate Adds(more: seq<Field>) {
    forall i :: 0 <= i < |more| ==> more[i].key == NAME || more[i].key == PARAMS || more[i].key == REVERSIBLE_BY
  }

  lemma CommonHas(blast: Value, key: Text)
    ensures Lookup(Common(blast), key) ==
      if key == SUMMARY then Some(Str(WORD))
      else if key == BLAST_RADIUS then Some(blast)
      else if key == CONFIRM then Some(STANDARD)
      else if key == SPEECH_EXAMPLES then Some(Arr([Str(WORD)]))
      else None
  {
    hide Lit, Lookup;
    KeyLengths();
    var fs := Common(blast);
    assert fs == [fs[0]] + ([fs[1]] + ([fs[2]] + ([fs[3]] + [])));
    LookupHead(fs[3], [], key);
    LookupHead(fs[2], [fs[3]] + [], key);
    LookupHead(fs[1], [fs[2]] + ([fs[3]] + []), key);
    LookupHead(fs[0], [fs[1]] + ([fs[2]] + ([fs[3]] + [])), key);
  }

  lemma VerbHas(blast: Value, more: seq<Field>)
    requires Adds(more)
    ensures var v := Verb(blast, more);
      && GetOrNull(v, SUMMARY) == Str(WORD) && GetOrNull(v, BLAST_RADIUS) == blast
      && GetOrNull(v, CONFIRM) == STANDARD && GetOrNull(v, SPEECH_EXAMPLES) == Arr([Str(WORD)])
      && Get(v, BLAST_RADIUS) == Some(blast) && Get(v, CONFIRM) == Some(STANDARD)
    ensures var v := Verb(blast, more);
      && Get(v, NAME) == Lookup(more, NAME) && Get(v, PARAMS) == Lookup(more, PARAMS)
      && Get(v, REVERSIBLE_BY) == Lookup(more, REVERSIBLE_BY)
    ensures var v := Verb(blast, more);
      GetOrNull(v, READ_ONLY) == Null && GetOrNull(v, RETURNS_SECRET) == Null
  {
    hide Lit, Lookup, Common;
    KeyLengths();
    VerbHasKey(blast, more, SUMMARY);
    VerbHasKey(blast, more, BLAST_RADIUS);
    VerbHasKey(blast, more, CONFIRM);
    VerbHasKey(blast, more, SPEECH_EXAMPLES);
    VerbHasKey(blast, more, NAME);
    VerbHasKey(blast, more, PARAMS);
    VerbHasKey(blast, more, REVERSIBLE_BY);
    VerbHasKey(blast, more, READ_ONLY);
    VerbHasKey(blast, more, RETURNS_SECRET);
    assert !HasKey(more, READ_ONLY) && !HasKey(more, RETURNS_SECRET);
  }

  lemma VerbHasKey(blast: Value, more: seq<Field>, key: Text)
    ensures Get(Verb(blast, more), key) ==
      if Lookup(Common(blast), key).Some? then Lookup(Common(blast), key) else Lookup(more, key)
    ensures Lookup(Common(blast), key) ==
      if key == SUMMARY then Some(Str(WORD))
      else if key == BLAST_RADIUS then Some(blast)
      else if key == CONFIRM then Some(STANDARD)
      else if key == SPEECH_EXAMPLES then Some(Arr([Str(WORD)]))
      else None
  {
    hide Lit, Common;
    CommonHas(blast, key);
    LookupConcat(Common(blast), more, key);
  }

  lemma DocumentHas(verbs: seq<Value>)
    ensures var doc := Document(verbs);
      && GetOrNull(doc, VERSION) == Int(1) && GetOrNull(doc, VERBS) == Arr(verbs)
      && GetOrNull(doc, EXCLUDED) == Arr([Obj([Field(SUBJECT, Str(WORD)), Field(REASON, Str(WORD))])])
  {
    hide Lit, Lookup;
    KeyLengths();
    var fs := Document(verbs).fields;
    assert fs == [fs[0]] + ([fs[1]] + [fs[2]]);
    DocumentKey(fs, VERSION);
    DocumentKey(fs, VERBS);
    DocumentKey(fs, EXCLUDED);
  }

  lemma DocumentKey(fs: seq<Field>, key: Text)
    requires |fs| == 3
    ensures Lookup(fs, key) ==
      if fs[0].key == key then Some(fs[0].value)
      else if fs[1].key == key then Some(fs[1].value)
      else if fs[2].key == key then Some(fs[2].value)
      else None
  {
    hide Lookup;
    assert fs == [fs[0]] + ([fs[1]] + ([fs[2]] + []));
    LookupHead(fs[2], [], key);
    LookupHead(fs[1], [fs[2]] + [], key);
    LookupHead(fs[0], [fs[1]] + ([fs[2]] + []), key);
  }

  /** No rule finds anything in the verb's own fields. */
  ghost predicate CleanVerbs(verbs: seq<Value>) {
    forall i: nat, rule: VerbRule :: i < |verbs| ==> !VerbBreaks(verbs, i, rule)
  }

  ghost predicate CleanParams(verbs: seq<Value>) {
    forall i: nat, j: nat, rule: ParamRule :: i < |verbs| && j < |ListOf(verbs[i], PARAMS)| ==>
      !ParamBreaks(ListOf(verbs[i], PARAMS)[j], rule)
  }

  lemma DocumentClean(verbs: seq<Value>)
    requires verbs != [] && CleanVerbs(verbs) && CleanParams(verbs)
    requires forall i :: 0 <= i < |verbs| ==> VerbLintable(verbs[i])
    ensures var doc := Document(verbs); Clean(doc) && ListOf(doc, VERBS) == verbs
  {
    hide Lit, VerbBreaks, ParamBreaks, VerbLintable, GetOrNull, Document;
    var doc := Document(verbs);
    DocumentHas(verbs);
    DocumentIsObj(verbs);
    ExcludedClean();
    assert ListOf(doc, VERBS) == verbs;
    forall f: Finding
      ensures !Breaks(doc, f)
    {
    }
  }

  lemma DocumentIsObj(verbs: seq<Value>)
    ensures Document(verbs).Obj?
  {
  }

  lemma ExcludedClean()
    ensures var e := Obj([Field(SUBJECT, Str(WORD)), Field(REASON, Str(WORD))]);
      Truthy(GetOrNull(e, SUBJECT)) && Truthy(GetOrNull(e, REASON))
  {
    KeyLengths();
    var fs := [Field(SUBJECT, Str(WORD)), Field(REASON, Str(WORD))];
    assert fs[1..][0] == fs[1];
    assert |WORD| == 1;
  }

  // ------------------------------------------------------------ single verbs

  lemma Words()
    ensures |WORD| == 1 && IsBlast(ADDITIVE) && IsBlast(REVERSIBLE) && IsConfirm(STANDARD)
    ensures ADDITIVE != DISRUPTIVE && REVERSIBLE != DISRUPTIVE && ADDITIVE != REVERSIBLE && STANDARD != NONE
  {
    assert ADDITIVE.s[0] == 97 && REVERSIBLE.s[0] == 114 && DISRUPTIVE.s[0] == 100;
    assert STANDARD.s[0] == 115 && NONE.s[0] == 110;
  }

  /** A verb of this kind, with a reversal that some verb has for its name, or none if it need
      have none, breaks no rule unless its name was used before. */
  lemma VerbClean(verbs: seq<Value>, i: nat, blast: Value, more: seq<Field>)
    requires i < |verbs| && verbs[i] == Verb(blast, more) && Adds(more)
    requires blast == ADDITIVE || (blast == REVERSIBLE && HasKey(more, REVERSIBLE_BY))
    requires var reversal := Lookup(more, REVERSIBLE_BY);
      reversal.Some? && reversal.value != Null ==> NamesAVerb(verbs, reversal.value)
    requires forall k :: 0 <= k < i ==> !Equal(NameOf(verbs[i]), NameOf(verbs[k]))
    ensures forall rule: VerbRule :: !VerbBreaks(verbs, i, rule)
  {
    hide Lit, Lookup, Verb, NameOf, NamesAVerb, IsBlast, IsConfirm, Get, Equal;
    VerbHas(blast, more);
    Words();
    forall rule: VerbRule
      ensures !VerbBreaks(verbs, i, rule)
    {
    }
  }

  // ------------------------------------------------------------ at the gate

  lemma NamedOne(v: Value)
    requires GetOrNull(v, NAME) == Str(WORD)
    ensures ByName([v]) == [Field(WORD, v)]
  {
    hide GetOrNull;
    Words();
    assert [v][1..] == [];
    assert Named([]) == [];
    assert Named([v]) == [Field(WORD, v)];
    assert DistinctKeys([Field(WORD, v)]);
    DictKeeps([Field(WORD, v)]);
  }

  function Proposal(params: seq<Field>): Value {
    Obj([Field(VERB, Str(WORD)), Field(PARAMS, Obj(params))])
  }

  lemma ProposalHas(params: seq<Field>)
    ensures GetOrNull(Proposal(params), VERB) == Str(WORD)
    ensures SuppliedOf(Proposal(params)) == Some(params)
  {
    hide Lit, Lookup;
    KeyLengths();
    LookupHead(Field(PARAMS, Obj(params)), [], PARAMS);
    LookupHead(Field(VERB, Str(WORD)), [Field(PARAMS, Obj(params))] + [], VERB);
    LookupHead(Field(VERB, Str(WORD)), [Field(PARAMS, Obj(params))] + [], PARAMS);
    var fs := [Field(VERB, Str(WORD)), Field(PARAMS, Obj(params))];
    assert fs == [Field(VERB, Str(WORD))] + ([Field(PARAMS, Obj(params))] + []);
  }

  /** One parameter, called `x`. */
  function Named1(more: seq<Field>): seq<Field> {
    [Field(NAME, Str(WORD))] + more
  }

  lemma NameFirst(more: seq<Field>, key: Text)
    ensures Lookup(Named1(more), NAME) == Some(Str(WORD))
    ensures key != NAME ==> Lookup(Named1(more), key) == Lookup(more, key)
  {
    LookupHead(Field(NAME, Str(WORD)), more, NAME);
    LookupHead(Field(NAME, Str(WORD)), more, key);
  }

  lemma Only(f: Field, key: Text)
    ensures Lookup([f], key) == if f.key == key then Some(f.value) else None
  {
    LookupHead(f, [], key);
    assert [f] + [] == [f];
  }

  /** A verb with one parameter. */
  function Taking(p: Value): Value {
    Verb(ADDITIVE, Named1([Field(PARAMS, Arr([p]))]))
  }

  lemma TakingHas(p: Value)
    ensures var more := Named1([Field(PARAMS, Arr([p]))]);
      && Adds(more) && Lookup(more, PARAMS) == Some(Arr([p])) && Lookup(more, NAME) == Some(Str(WORD))
      && Lookup(more, REVERSIBLE_BY) == None
  {
    hide Lit, Lookup;
    KeyLengths();
    NameFirst([Field(PARAMS, Arr([p]))], PARAMS);
    NameFirst([Field(PARAMS, Arr([p]))], REVERSIBLE_BY);
    Only(Field(PARAMS, Arr([p])), PARAMS);
    Only(Field(PARAMS, Arr([p])), REVERSIBLE_BY);
  }

  /** What the gate makes of the one parameter. */
  function Judged(p: Value, value: Value, r: Result<Plan, Refusal>): bool {
    match CheckValue(WORD, p, value)
    case Some(e) => r == Err(e)
    case None => r.Ok? && r.value.params == [Field(WORD, value)]
  }

  /** If the linter lets the parameter pass, all depends on the gate's check of the value. */
  lemma {:induction false} TakingJudged(show: Show, p: Value, value: Value)
    requires ParamLintable(p) && GetOrNull(p, NAME) == Str(WORD)
    requires forall rule: ParamRule :: !ParamBreaks(p, rule)
    ensures var doc := Document([Taking(p)]);
      Clean(doc) && Judged(p, value, Gate(show, Catalogue(doc), Proposal([Field(WORD, value)])))
  {
    hide Lit, Lookup, Verb, Document, Clean, ParamLintable, ParamBreaks, VerbBreaks, Judged, Proposal, SuppliedOf, GetOrNull, Gate;
    var more := Named1([Field(PARAMS, Arr([p]))]);
    var v := Taking(p);
    TakingHas(p);
    VerbReads(ADDITIVE, more);
    VerbHas(ADDITIVE, more);
    VerbClean([v], 0, ADDITIVE, more);
    assert ListOf(v, PARAMS) == [p];
    TakingLintable(v, p);
    DocumentClean([v]);
    NamedOne(v);
    NamedOne(p);
    ProposalHas([Field(WORD, value)]);
    Words();
    OnlyDicts(p, NAME);
    OnlyDicts(Proposal([Field(WORD, value)]), VERB);
    GateOne(show, [Field(WORD, v)], v, p, value, Proposal([Field(WORD, value)]));
  }

  lemma TakingLintable(v: Value, p: Value)
    requires v.Obj? && ParamLintable(p) && GetOrNull(v, NAME) == Str(WORD) && GetOrNull(v, PARAMS) == Arr([p])
    requires GetOrNull(v, REVERSIBLE_BY) == Null && GetOrNull(v, BLAST_RADIUS).Str? && GetOrNull(v, CONFIRM).Str?
    ensures VerbLintable(v)
  {
    hide ParamLintable, GetOrNull;
  }

  lemma GateOne(show: Show, catalogue: seq<Field>, v: Value, p: Value, value: Value, proposal: Value)
    requires catalogue == [Field(WORD, v)] && GetOrNull(v, PARAMS) == Arr([p]) && ByName([p]) == [Field(WORD, p)]
    requires p.Obj? && GetOrNull(p, NAME) == Str(WORD)
    requires GetOrNull(v, BLAST_RADIUS) == ADDITIVE && Get(v, BLAST_RADIUS) == Some(ADDITIVE)
    requires proposal.Obj? && GetOrNull(proposal, VERB) == Str(WORD) && SuppliedOf(proposal) == Some([Field(WORD, value)])
    ensures Judged(p, value, Gate(show, catalogue, proposal))
  {
    hide Lit, CheckValue, GetOrNull, SuppliedOf, ByName, Sentence, Get;
    Words();
    Only(Field(WORD, v), WORD);
    Only(Field(WORD, value), WORD);
    var declared := [Field(WORD, p)];
    assert KeySet([Field(WORD, value)]) <= KeySet(declared) by {
      assert declared[0].key == WORD;
    }
    assert ListOf(v, PARAMS) == [p] && NamesRead(GetOrNull(v, PARAMS));
    assert declared[1..] == [] && FillParams(declared[1..], [Field(WORD, value)]) == Ok([]);
  }

  lemma VerbReads(blast: Value, more: seq<Field>)
    requires Adds(more)
    ensures var v := Verb(blast, more);
      && v.Obj?
      && GetOrNull(v, NAME) == (if Lookup(more, NAME).Some? then Lookup(more, NAME).value else Null)
      && GetOrNull(v, PARAMS) == (if Lookup(more, PARAMS).Some? then Lookup(more, PARAMS).value else Null)
      && GetOrNull(v, REVERSIBLE_BY) == (if Lookup(more, REVERSIBLE_BY).Some? then Lookup(more, REVERSIBLE_BY).value else Null)
  {
    hide Lit, Lookup;
    VerbHas(blast, more);
  }

  // ------------------------------------------------------------ the gaps

  /** A parameter called `x` with these two fields. */
  function Param(a: Field, b: Field): Value {
    Obj(Named1([a, b]))
  }

  lemma ParamHas(a: Field, b: Field, key: Text)
    requires a.key != NAME && b.key != NAME
    ensures GetOrNull(Param(a, b), NAME) == Str(WORD)
    ensures key != NAME ==>
      Get(Param(a, b), key) == if a.key == key then Some(a.value) else if b.key == key then Some(b.value) else None
  {
    hide Lit, Lookup;
    NameFirst([a, b], key);
    assert [a, b] == [a] + ([b] + []);
    LookupHead(a, [b] + [], key);
    LookupHead(b, [], key);
  }

  lemma TypeWords()
    ensures |WORD| == 1 && STRING != BOOL && STRING != ENUM && DURATION != BOOL && DURATION != ENUM && ENUM != BOOL
    ensures IsParamType(STRING) && IsParamType(DURATION) && IsParamType(ENUM) && STRING != DURATION
    ensures !IsReference(DURATION) && !IsReference(STRING)
  {
    assert STRING.s[0] == 115 && BOOL.s[0] == 98 && ENUM.s[0] == 101 && DURATION.s[0] == 100;
    TypesDiffer();
  }

  /** A string parameter with some limit written down: the linter does not look at it. */
  lemma LimitedPasses(limit: Value)
    ensures var p := Param(Field(TYPE, STRING), Field(MAX_LENGTH, limit));
      && ParamLintable(p) && GetOrNull(p, NAME) == Str(WORD) && GetOrNull(p, TYPE) == STRING
      && Get(p, MAX_LENGTH) == Some(limit) && (forall rule: ParamRule :: !ParamBreaks(p, rule))
  {
    hide Lit, Lookup, Get, Param;
    KeyLengths();
    TypeWords();
    var a, b := Field(TYPE, STRING), Field(MAX_LENGTH, limit);
    ParamHas(a, b, TYPE);
    ParamHas(a, b, MAX_LENGTH);
    ParamIsObj(a, b);
  }

  lemma ParamIsObj(a: Field, b: Field)
    ensures Param(a, b).Obj?
  {
  }

  /** A null limit passes the linter; the gate then refuses every text. */
  lemma {:induction false} NullLimitGap(show: Show, t: Text)
    ensures var doc := Document([Taking(Param(Field(TYPE, STRING), Field(MAX_LENGTH, Null)))]);
      Clean(doc) && Gate(show, Catalogue(doc), Proposal([Field(WORD, Str(t))])) == Err(NoLimit(WORD))
  {
    hide Gate, Document, Taking, Proposal, Clean, Lookup, Catalogue, Get, Param, ParamLintable, ParamBreaks, Lit;
    TypeWords();
    LimitedPasses(Null);
    TakingJudged(show, Param(Field(TYPE, STRING), Field(MAX_LENGTH, Null)), Str(t));
  }

  /** A limit written as a text passes the linter; the gate then raises on every text. */
  lemma {:induction false} TextLimitGap(show: Show, t: Text)
    ensures var doc := Document([Taking(Param(Field(TYPE, STRING), Field(MAX_LENGTH, Str(Lit("64")))))]);
      Clean(doc) && Gate(show, Catalogue(doc), Proposal([Field(WORD, Str(t))])) == Err(Raises)
  {
    hide Gate, Document, Taking, Proposal, Clean, Lookup, Catalogue, Get, Param, ParamLintable, ParamBreaks, Lit;
    TypeWords();
    LimitedPasses(Str(Lit("64")));
    TakingJudged(show, Param(Field(TYPE, STRING), Field(MAX_LENGTH, Str(Lit("64")))), Str(t));
  }

  /** A duration without a limit passes the linter; the gate then refuses every text. */
  lemma {:induction false} DurationGap(show: Show, t: Text)
    ensures var doc := Document([Taking(Param(Field(TYPE, DURATION), Field(PROMPT, Str(WORD))))]);
      Clean(doc) && Gate(show, Catalogue(doc), Proposal([Field(WORD, Str(t))])) == Err(NoLimit(WORD))
  {
    hide Gate, Document, Taking, Proposal, Clean, Lookup, Catalogue, Get, Param, ParamLintable, ParamBreaks, Lit;
    TypeWords();
    DurationPasses();
    TakingJudged(show, Param(Field(TYPE, DURATION), Field(PROMPT, Str(WORD))), Str(t));
  }

  const PROMPT: Text := Lit("prompt")

  lemma PromptLength()
    ensures |PROMPT| == 6 && PROMPT[0] == 112 && PROMPT[1] == 114 && VALUES[0] == 118 && PARAMS[1] == 97
  {
  }

  lemma DurationPasses()
    ensures var p := Param(Field(TYPE, DURATION), Field(PROMPT, Str(WORD)));
      && ParamLintable(p) && GetOrNull(p, NAME) == Str(WORD) && GetOrNull(p, TYPE) == DURATION
      && Get(p, MAX_LENGTH) == None && (forall rule: ParamRule :: !ParamBreaks(p, rule))
  {
    hide Lit, Lookup, Get, Param, IsReference;
    KeyLengths();
    PromptLength();
    TypeWords();
    var a, b := Field(TYPE, DURATION), Field(PROMPT, Str(WORD));
    ParamHas(a, b, TYPE);
    ParamHas(a, b, MAX_LENGTH);
    ParamIsObj(a, b);
  }

  const WRITTEN: Text := Lit("low, high")

  /** The values of an enum written as one text pass the linter; the gate then lets every part
      of that text through, such as `ow` and the empty text, and raises on what is no text. */
  lemma {:induction false} TextValuesGap(show: Show, value: Value)
    ensures var doc := Document([Taking(Param(Field(TYPE, ENUM), Field(VALUES, Str(WRITTEN))))]);
      var r := Gate(show, Catalogue(doc), Proposal([Field(WORD, value)]));
      && Clean(doc)
      && (!value.Str? ==> r == Err(Raises))
      && (value.Str? ==> (r.Ok? <==> Find(WRITTEN, value.s).Some?))
      && (r.Ok? ==> r.value.params == [Field(WORD, value)])
    ensures Find(WRITTEN, Lit("ow")).Some? && Find(WRITTEN, []).Some?
  {
    hide Gate, Document, Taking, Proposal, Clean, Lookup, Catalogue, Get, Param, ParamLintable, ParamBreaks, Lit, Find;
    TypeWords();
    ValuesPass();
    UndeclaredParts();
    TakingJudged(show, Param(Field(TYPE, ENUM), Field(VALUES, Str(WRITTEN))), value);
  }

  lemma UndeclaredParts()
    ensures Find(WRITTEN, Lit("ow")).Some? && Find(WRITTEN, []).Some?
  {
    hide Find;
    assert WRITTEN[1..3] == Lit("ow");
    assert At(WRITTEN, Lit("ow"), 1);
    assert At(WRITTEN, [], 0);
  }

  lemma ValuesPass()
    ensures var p := Param(Field(TYPE, ENUM), Field(VALUES, Str(WRITTEN)));
      && ParamLintable(p) && GetOrNull(p, NAME) == Str(WORD) && GetOrNull(p, TYPE) == ENUM
      && GetOrNull(p, VALUES) == Str(WRITTEN) && |WRITTEN| == 9 && (forall rule: ParamRule :: !ParamBreaks(p, rule))
  {
    hide Lit, Lookup, Get, Param, IsReference;
    KeyLengths();
    TypeWords();
    WrittenLength();
    var a, b := Field(TYPE, ENUM), Field(VALUES, Str(WRITTEN));
    ParamHas(a, b, TYPE);
    ParamHas(a, b, VALUES);
    ParamHas(a, b, DEFAULT);
    ParamIsObj(a, b);
  }

  lemma WrittenLength()
    ensures |WRITTEN| == 9
  {
  }

  lemma PlannedOne(show: Show, catalogue: seq<Field>, v: Value, proposal: Value)
    requires Lookup(catalogue, WORD) == Some(v) && GetOrNull(v, PARAMS) == Null
    requires proposal.Obj? && GetOrNull(proposal, VERB) == Str(WORD) && SuppliedOf(proposal) == Some([])
    requires Get(v, BLAST_RADIUS) == Some(REVERSIBLE)
    ensures Gate(show, catalogue, proposal).Ok?
    ensures var plan := Gate(show, catalogue, proposal).value;
      plan.blastRadius == REVERSIBLE && plan.reversibleBy == GetOrNull(v, REVERSIBLE_BY)
  {
    hide Lit, SuppliedOf, Sentence, Lookup, Get;
    Words();
    assert Declared(v) == [];
    assert KeySet([]) == {};
    assert FillParams([], []) == Ok([]);
  }

  /** A null reversal passes the linter; the plan of a reversible verb then names none. */
  lemma {:induction false} NullReversalGap(show: Show)
    ensures var doc := Document([Verb(REVERSIBLE, Named1([Field(REVERSIBLE_BY, Null)]))]);
      var r := Gate(show, Catalogue(doc), Proposal([]));
      && Clean(doc)
      && r.Ok? && r.value.blastRadius == REVERSIBLE && r.value.reversibleBy == Null
  {
    hide Lit, Lookup, Verb, Document, Clean, VerbBreaks, Gate, Proposal, SuppliedOf, GetOrNull, Get;
    var more := Named1([Field(REVERSIBLE_BY, Null)]);
    var v := Verb(REVERSIBLE, more);
    ReversalHas(Null);
    VerbReads(REVERSIBLE, more);
    VerbHas(REVERSIBLE, more);
    VerbClean([v], 0, REVERSIBLE, more);
    PlainLintable(v);
    DocumentClean([v]);
    NamedOne(v);
    Only(Field(WORD, v), WORD);
    ProposalHas([]);
    OnlyDicts(Proposal([]), VERB);
    PlannedOne(show, [Field(WORD, v)], v, Proposal([]));
  }

  lemma ReversalHas(reversal: Value)
    ensures var more := Named1([Field(REVERSIBLE_BY, reversal)]);
      && Adds(more) && Lookup(more, PARAMS) == None && Lookup(more, NAME) == Some(Str(WORD))
      && Lookup(more, REVERSIBLE_BY) == Some(reversal) && HasKey(more, REVERSIBLE_BY)
  {
    hide Lit, Lookup;
    KeyLengths();
    NameFirst([Field(REVERSIBLE_BY, reversal)], PARAMS);
    NameFirst([Field(REVERSIBLE_BY, reversal)], REVERSIBLE_BY);
    Only(Field(REVERSIBLE_BY, reversal), PARAMS);
    Only(Field(REVERSIBLE_BY, reversal), REVERSIBLE_BY);
  }

  lemma PlainLintable(v: Value)
    requires v.Obj? && Hashable(GetOrNull(v, NAME)) && GetOrNull(v, PARAMS) == Null
    requires Hashable(GetOrNull(v, REVERSIBLE_BY)) && GetOrNull(v, BLAST_RADIUS).Str? && GetOrNull(v, CONFIRM).Str?
    ensures VerbLintable(v) && ListOf(v, PARAMS) == []
  {
    hide GetOrNull;
  }

  /** The loader drops it, or no proposal can name it: an empty name, a number or a boolean. */
  predicate NoWord(x: Value) {
    Hashable(x) && x != Null && (x.Str? ==> x.s == [])
  }

  /** A verb with such a name, and another that names it for its reversal: the linter finds
      the name, and the plan promises what cannot be looked up. */
  lemma {:induction false} NoWordReversalGap(show: Show, x: Value)
    requires NoWord(x)
    ensures var v := Verb(REVERSIBLE, Named1([Field(REVERSIBLE_BY, x)]));
      var doc := Document([v, Verb(ADDITIVE, [Field(NAME, x)])]);
      var r := Gate(show, Catalogue(doc), Proposal([]));
      && Clean(doc)
      && r.Ok? && r.value.blastRadius == REVERSIBLE && r.value.reversibleBy == x
      && Catalogue(doc) == [Field(WORD, v)]
  {
    hide Lit, Lookup, Verb, Document, Clean, VerbBreaks, Gate, Proposal, SuppliedOf, GetOrNull, Get, VerbLintable, Equal;
    var more, other := Named1([Field(REVERSIBLE_BY, x)]), [Field(NAME, x)];
    var v, u := Verb(REVERSIBLE, more), Verb(ADDITIVE, other);
    var verbs := [v, u];
    ReversalHas(x);
    DroppedHas(x);
    VerbReads(REVERSIBLE, more);
    VerbHas(REVERSIBLE, more);
    VerbReads(ADDITIVE, other);
    VerbHas(ADDITIVE, other);
    Words();
    NamesApart(v, u, x);
    assert NamesAVerb(verbs, x) by {
      assert Equal(x, GetOrNull(verbs[1], NAME));
    }
    VerbClean(verbs, 0, REVERSIBLE, more);
    VerbClean(verbs, 1, ADDITIVE, other);
    PlainLintable(v);
    PlainLintable(u);
    DocumentClean(verbs);
    NamedFirst(v, u);
    Only(Field(WORD, v), WORD);
    ProposalHas([]);
    OnlyDicts(Proposal([]), VERB);
    PlannedOne(show, [Field(WORD, v)], v, Proposal([]));
  }

  lemma DroppedHas(x: Value)
    ensures var more := [Field(NAME, x)];
      && Adds(more) && Lookup(more, PARAMS) == None && Lookup(more, NAME) == Some(x) && Lookup(more, REVERSIBLE_BY) == None
  {
    hide Lit, Lookup;
    KeyLengths();
    Only(Field(NAME, x), NAME);
    Only(Field(NAME, x), PARAMS);
    Only(Field(NAME, x), REVERSIBLE_BY);
  }

  lemma NamesApart(v: Value, u: Value, x: Value)
    requires GetOrNull(v, NAME) == Str(WORD) && GetOrNull(u, NAME) == x && NoWord(x)
    ensures !Equal(NameOf(u), NameOf(v)) && Equal(x, x)
  {
    hide Lit, Get, Equal;
    Words();
    EqualText(WORD, x);
    EqualSelf(x);
  }

  lemma EqualSelf(x: Value)
    ensures Equal(x, x)
  {
  }

  lemma NamedFirst(v: Value, u: Value)
    requires GetOrNull(v, NAME) == Str(WORD) && NoWord(GetOrNull(u, NAME))
    ensures ByName([v, u]) == [Field(WORD, v)]
  {
    hide GetOrNull;
    Words();
    assert [v, u][1..] == [u] && [u][1..] == [];
    assert Named([]) == [] && Named([u]) == [];
    assert Named([v, u]) == [Field(WORD, v)];
    assert DistinctKeys([Field(WORD, v)]);
    DictKeeps([Field(WORD, v)]);
  }

  /** A verb without a name passes the linter; the gate then has no operation at all. */
  lemma {:induction false} UnnamedGap(show: Show, proposal: Value)
    ensures var doc := Document([Verb(ADDITIVE, [])]);
      && Clean(doc) && Catalogue(doc) == [] && Gate(show, Catalogue(doc), proposal).Err?
  {
    hide Lit, Verb, Document, Clean, VerbBreaks, SuppliedOf, GetOrNull, Get;
    var v := Verb(ADDITIVE, []);
    VerbReads(ADDITIVE, []);
    VerbHas(ADDITIVE, []);
    VerbClean([v], 0, ADDITIVE, []);
    PlainLintable(v);
    DocumentClean([v]);
    assert [v][1..] == [] && Named([]) == [] && Named([v]) == [];
  }
}
