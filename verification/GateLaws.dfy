/** When the gate lets a proposal through, what its plan then holds, and that gating a plan's
    own parameters again changes nothing. */
module GateLaws {
  import opened Texts
  import opened Json
  import opened JsonOrder
  import opened JsonNumber
  import opened StewardPlan
  import opened StewardGate
  import opened TextSearch

  // ------------------------------------------------------------ one parameter

  /** White space, a whole number above zero, one unit, white space. */
  ghost predicate IsDuration(value: Text) {
    exists i, j :: 0 <= i < j < |value| && DurationAt(value, i, j)
  }

  predicate DurationAt(value: Text, i: nat, j: nat)
    requires i < j < |value|
  {
    && AllSpace(value[..i]) && AllSpace(value[j + 1..])
    && AllDigits(value[i..j]) && NatValue(value[i..j]) > 0
    && value[j] in Lit("smhdw")
  }

  lemma Edges(t: Text, i: nat, j: nat)
    requires i <= j <= |t| && AllSpace(t[..i]) && AllSpace(t[j..])
    ensures forall k :: 0 <= k < i || j <= k < |t| ==> IsSpace(t[k])
  {
    forall k | 0 <= k < i || j <= k < |t|
      ensures IsSpace(t[k])
    {
      if k < i {
        assert t[k] == t[..i][k];
      } else {
        assert t[k] == t[j..][k - j];
      }
    }
  }

  lemma StripIs(t: Text, i: nat, j: nat)
    requires i < j <= |t| && AllSpace(t[..i]) && AllSpace(t[j..])
    requires !IsSpace(t[i]) && !IsSpace(t[j - 1])
    ensures Strip(t) == t[i..j]
  {
    hide Strip, IsSpace;
    var a, b := StripShape(t);
    Edges(t, i, j);
    Edges(t, a, b);
  }

  lemma UnitLetters(c: CodePoint)
    ensures IsUnit(c) <==> c in Lit("smhdw")
  {
    var t := Lit("smhdw");
    assert t[0] == 115 && t[1] == 109 && t[2] == 104 && t[3] == 100 && t[4] == 119;
  }

  lemma DurationExact(value: Text)
    ensures LooksLikeDuration(value) <==> IsDuration(value)
  {
    hide NatValue, Strip, IsUnit, Lit;
    forall c: CodePoint
      ensures IsUnit(c) <==> c in Lit("smhdw")
    {
      UnitLetters(c);
    }
    var a, b := StripShape(value);
    if LooksLikeDuration(value) {
      assert Strip(value)[..b - a - 1] == value[a..b - 1];
      assert DurationAt(value, a, b - 1);
    }
    if i, j :| 0 <= i < j < |value| && DurationAt(value, i, j) {
      assert value[i] == value[i..j][0];
      StripIs(value, i, j + 1);
      assert value[i..j + 1][..j - i] == value[i..j];
    }
  }

  /** What the values of an enum allow: one of a list, a part of a text, a key of a
      dictionary. */
  ghost predicate Among(value: Value, values: Value) {
    match values
    case Arr(items) => exists i :: 0 <= i < |items| && Equal(value, items[i])
    case Str(s) => s != [] && value.Str? && exists k: nat :: At(s, value.s, k)
    case Obj(fs) => value.Str? && HasKey(fs, value.s)
    case _ => false
  }

  /** A number that is not below `n`. */
  predicate AtLeast(limit: Value, n: nat) {
    match limit
    case Int(m) => n <= m
    case Bool(b) => n <= if b then 1 else 0
    case Float(lexeme) => lexeme == NAN || lexeme == INFINITY || (lexeme != MINUS_INFINITY && !Above(n, DecimalOf(lexeme)))
    case _ => false
  }

  /** The length limit allows a text this long: the one that is written down, even if it is
      null, or 256 for a reference without one. */
  predicate LimitAllows(spec: Value, length: nat) {
    match Get(spec, MAX_LENGTH)
    case Some(limit) => AtLeast(limit, length)
    case None => IsReference(GetOrNull(spec, TYPE)) && length <= 256
  }

  lemma LimitExact(spec: Value, length: nat)
    ensures AtLeast(Limit(spec), length) <==> LimitAllows(spec, length)
  {
    hide Lit, Get, IsReference;
  }

  /** What a declaration allows. */
  ghost predicate Conforms(spec: Value, value: Value) {
    var ptype := GetOrNull(spec, TYPE);
    if ptype == BOOL then value.Bool?
    else if ptype == ENUM then Among(value, GetOrNull(spec, VALUES))
    else
      && value.Str? && Hashable(ptype)
      && LimitAllows(spec, |value.s|)
      && (exists i :: 0 <= i < |value.s| && !IsSpace(value.s[i]))
      && (ptype == DURATION ==> IsDuration(value.s))
  }

  lemma ContainsExact(values: Value, value: Value)
    ensures Contains(values, value) == Some(true) <==> Among(value, values)
  {
    hide Equal, At, Find;
  }

  lemma SpecialFloats()
    ensures NAN[0] == 78 && INFINITY[0] == 73 && MINUS_INFINITY[0] == 45
  {
  }

  lemma ExceedsExact(n: nat, limit: Value)
    ensures Exceeds(n, limit) == Some(false) <==> AtLeast(limit, n)
    ensures Exceeds(n, limit) == None <==> limit.Null? || limit.Str? || limit.Arr? || limit.Obj?
  {
    hide Above, DecimalOf;
    SpecialFloats();
  }

  lemma CheckExact(name: Text, spec: Value, value: Value)
    ensures CheckValue(name, spec, value) == None <==> Conforms(spec, value)
  {
    hide LooksLikeDuration, IsDuration, Limit, LimitAllows, Contains, Among, Exceeds, AtLeast;
    ContainsExact(GetOrNull(spec, VALUES), value);
    if value.Str? {
      ExceedsExact(|value.s|, Limit(spec));
      LimitExact(spec, |value.s|);
      DurationExact(value.s);
      var i, j := StripShape(value.s);
    }
  }

  /** What a declaration cannot be compared with: a number among whose values to look, or a
      limit that is no number. */
  predicate Clashes(spec: Value, value: Value) {
    var ptype, values := GetOrNull(spec, TYPE), GetOrNull(spec, VALUES);
    if ptype == BOOL then false
    else if ptype == ENUM then
      Truthy(values) &&
      !(values.Arr? || (values.Str? && value.Str?) || (values.Obj? && Hashable(value)))
    else
      value.Str? && (!Hashable(ptype) || Limit(spec).Str? || !Hashable(Limit(spec)))
  }

  /** Checking a value raises instead of refusing exactly where the two clash. */
  lemma ClashExact(name: Text, spec: Value, value: Value)
    ensures CheckValue(name, spec, value) == Some(Raises) <==> Clashes(spec, value)
  {
    hide LooksLikeDuration, Limit, In, Find, HasKey, Exceeds, Strip, Lit;
    if value.Str? {
      ExceedsExact(|value.s|, Limit(spec));
    }
  }

  // ------------------------------------------------------------ the gate

  /** A declared parameter is supplied and conforms, or is not supplied and has a default. */
  ghost predicate Fits(p: Field, supplied: seq<Field>) {
    match Lookup(supplied, p.key)
    case Some(value) => Conforms(p.value, value)
    case None => Get(p.value, DEFAULT).Some?
  }

  /** The value taken: the supplied one, unaltered, or else the default. */
  function Chosen(p: Field, supplied: seq<Field>): Value {
    match Lookup(supplied, p.key)
    case Some(value) => value
    case None => GetOrNull(p.value, DEFAULT)
  }

  lemma FillOneExact(p: Field, supplied: seq<Field>)
    ensures FillOne(p, supplied).Ok? <==> Fits(p, supplied)
    ensures FillOne(p, supplied).Ok? ==> FillOne(p, supplied).value == Field(p.key, Chosen(p, supplied))
  {
    hide CheckValue, Conforms;
    var v := Lookup(supplied, p.key);
    if v.Some? {
      CheckExact(p.key, p.value, v.value);
    }
  }

  ghost predicate AllFit(declared: seq<Field>, supplied: seq<Field>) {
    forall i :: 0 <= i < |declared| ==> Fits(declared[i], supplied)
  }

  /** Exactly the declared names, in order, each with its supplied or default value. */
  predicate Fills(declared: seq<Field>, supplied: seq<Field>, params: seq<Field>) {
    |params| == |declared| &&
    forall i :: 0 <= i < |declared| ==> params[i] == Field(declared[i].key, Chosen(declared[i], supplied))
  }

  lemma {:induction false} FillExact(declared: seq<Field>, supplied: seq<Field>)
    ensures FillParams(declared, supplied).Ok? <==> AllFit(declared, supplied)
    ensures FillParams(declared, supplied).Ok? ==> Fills(declared, supplied, FillParams(declared, supplied).value)
  {
    hide FillOne, Fits, Chosen;
    if declared != [] {
      FillOneExact(declared[0], supplied);
      FillExact(declared[1..], supplied);
      var tail := declared[1..];
      assert forall i :: 0 < i < |declared| ==> declared[i] == tail[i - 1];
      if AllFit(declared, supplied) {
        assert forall i :: 0 <= i < |tail| ==> tail[i] == declared[i + 1];
      }
    }
  }

  ghost predicate Accepts(catalogue: seq<Field>, proposal: Value) {
    var name := GetOrNull(proposal, VERB);
    name.Str? && name.s != [] && HasKey(catalogue, name.s) && SuppliedOf(proposal).Some? &&
    var verb := Lookup(catalogue, name.s).value;
    var supplied := SuppliedOf(proposal).value;
    && NamesRead(GetOrNull(verb, PARAMS))
    && KeySet(supplied) <= KeySet(Declared(verb))
    && AllFit(Declared(verb), supplied)
    && !(OrElse(Get(verb, BLAST_RADIUS), DISRUPTIVE) == DISRUPTIVE && OrElse(Get(verb, CONFIRM), STRONG) == NONE)
  }

  lemma NothingOutside<T>(a: set<T>, b: set<T>)
    ensures a - b == {} <==> a <= b
  {
    if a - b == {} {
      forall x | x in a
        ensures x in b
      {
        assert x !in a - b;
      }
    }
  }

  /** The gate is exact: a plan comes out if and only if the verb is in the catalogue, its
      parameters are dictionaries with names, no undeclared name is supplied, every declared parameter is supplied and conforms or has
      a default, and the verb is not disruptive without confirmation; and then the plan
      holds exactly the declared names with those values. */
  lemma GateExact(show: Show, catalogue: seq<Field>, proposal: Value)
    ensures Gate(show, catalogue, proposal).Ok? <==> Accepts(catalogue, proposal)
    ensures Gate(show, catalogue, proposal).Ok? ==>
      var plan := Gate(show, catalogue, proposal).value;
      var verb := Lookup(catalogue, plan.verb).value;
      && GetOrNull(proposal, VERB) == Str(plan.verb)
      && HasKey(catalogue, plan.verb)
      && Fills(Declared(verb), SuppliedOf(proposal).value, plan.params)
      && plan == PlanOf(show, plan.verb, verb, plan.params)
  {
    hide FillParams, AllFit, Fills, Sentence, Lit, Declared, KeySet, SuppliedOf, NamesRead;
    var name := GetOrNull(proposal, VERB);
    if name.Str? && HasKey(catalogue, name.s) && SuppliedOf(proposal).Some? {
      var declared, supplied := Declared(Lookup(catalogue, name.s).value), SuppliedOf(proposal).value;
      FillExact(declared, supplied);
      NothingOutside(KeySet(supplied), KeySet(declared));
    }
  }

  // ------------------------------------------------------------ when an exception escapes

  /** The parameters before this one are all right, and this one cannot be compared. */
  ghost predicate FirstClash(declared: seq<Field>, supplied: seq<Field>, i: nat) {
    && i < |declared| && AllFit(declared[..i], supplied)
    && Lookup(supplied, declared[i].key).Some?
    && Clashes(declared[i].value, Lookup(supplied, declared[i].key).value)
  }

  lemma FillOneRaises(p: Field, supplied: seq<Field>)
    ensures FillOne(p, supplied) == Err(Raises) <==>
      Lookup(supplied, p.key).Some? && Clashes(p.value, Lookup(supplied, p.key).value)
  {
    hide CheckValue, Clashes;
    if Lookup(supplied, p.key).Some? {
      ClashExact(p.key, p.value, Lookup(supplied, p.key).value);
    }
  }

  lemma FitCons(declared: seq<Field>, supplied: seq<Field>, i: nat)
    requires 0 < i <= |declared|
    ensures AllFit(declared[..i], supplied) <==> Fits(declared[0], supplied) && AllFit(declared[1..][..i - 1], supplied)
  {
    hide Fits;
    var front, tail := declared[..i], declared[1..][..i - 1];
    assert forall k :: 0 < k < i ==> front[k] == tail[k - 1];
    assert front[0] == declared[0];
    if AllFit(front, supplied) {
      assert forall k :: 0 <= k < i - 1 ==> tail[k] == front[k + 1];
    }
  }

  lemma {:induction false} FillRaises(declared: seq<Field>, supplied: seq<Field>)
    ensures FillParams(declared, supplied) == Err(Raises) <==> exists i: nat :: FirstClash(declared, supplied, i)
  {
    hide FillOne, Fits, Clashes, AllFit;
    if declared != [] {
      var tail := declared[1..];
      FillOneRaises(declared[0], supplied);
      FillOneExact(declared[0], supplied);
      FillRaises(tail, supplied);
      if FillParams(declared, supplied) == Err(Raises) {
        if FillOne(declared[0], supplied).Ok? {
          var i: nat :| FirstClash(tail, supplied, i);
          FitCons(declared, supplied, i + 1);
          assert FirstClash(declared, supplied, i + 1);
        } else {
          NoneFit(declared, supplied);
          assert FirstClash(declared, supplied, 0);
        }
      }
      if i: nat :| FirstClash(declared, supplied, i) {
        if i > 0 {
          FitCons(declared, supplied, i);
          assert FirstClash(tail, supplied, i - 1);
        }
      }
    }
  }

  lemma NoneFit(declared: seq<Field>, supplied: seq<Field>)
    ensures AllFit(declared[..0], supplied)
  {
  }

  /** The gate raises, which its caller cannot tell from a refusal, exactly when the proposal
      is no dictionary, or the verb's parameters cannot be read, or, no name being unknown,
      the first supplied value that does not fit cannot be compared with its declaration. */
  lemma RaisesExact(show: Show, catalogue: seq<Field>, proposal: Value)
    ensures Gate(show, catalogue, proposal) == Err(Raises) <==>
      !proposal.Obj? ||
      (var name := GetOrNull(proposal, VERB);
       name.Str? && name.s != [] && HasKey(catalogue, name.s) && SuppliedOf(proposal).Some? &&
       var verb, supplied := Lookup(catalogue, name.s).value, SuppliedOf(proposal).value;
       !NamesRead(GetOrNull(verb, PARAMS)) ||
       (KeySet(supplied) <= KeySet(Declared(verb)) && exists i: nat :: FirstClash(Declared(verb), supplied, i)))
  {
    hide FillParams, FirstClash, Sentence, Lit, Declared, KeySet, SuppliedOf, NamesRead, GetOrNull;
    var name := GetOrNull(proposal, VERB);
    if name.Str? && HasKey(catalogue, name.s) && SuppliedOf(proposal).Some? {
      var declared, supplied := Declared(Lookup(catalogue, name.s).value), SuppliedOf(proposal).value;
      FillRaises(declared, supplied);
      NothingOutside(KeySet(supplied), KeySet(declared));
    }
  }

  // ------------------------------------------------------------ gating a plan again

  /** A plan's own parameters, proposed again. */
  function Again(plan: Plan): Value {
    Obj([Field(VERB, Str(plan.verb)), Field(PARAMS, Obj(plan.params))])
  }

  lemma AgainParts(plan: Plan)
    ensures GetOrNull(Again(plan), VERB) == Str(plan.verb)
    ensures SuppliedOf(Again(plan)) == Some(plan.params)
  {
    assert VERB[0] != PARAMS[0];
    var fs := Again(plan).fields;
    assert fs[1..] == [Field(PARAMS, Obj(plan.params))];
    assert Lookup(fs[1..], PARAMS) == Some(Obj(plan.params));
    assert Lookup(fs, PARAMS) == Lookup(fs[1..], PARAMS);
  }

  /** Every value that came from a default would itself have been accepted. */
  ghost predicate DefaultsConform(declared: seq<Field>, supplied: seq<Field>) {
    forall i :: 0 <= i < |declared| && Lookup(supplied, declared[i].key) == None ==>
      Conforms(declared[i].value, GetOrNull(declared[i].value, DEFAULT))
  }

  lemma FilledAgain(declared: seq<Field>, supplied: seq<Field>, params: seq<Field>)
    requires DistinctKeys(declared) && AllFit(declared, supplied) && Fills(declared, supplied, params)
    ensures AllFit(declared, params) <==> DefaultsConform(declared, supplied)
    ensures Fills(declared, params, params)
    ensures KeySet(params) == KeySet(declared)
  {
    hide Conforms, Lookup;
    assert DistinctKeys(params) by {
      assert forall i :: 0 <= i < |params| ==> params[i].key == declared[i].key;
    }
    forall i | 0 <= i < |declared|
      ensures Lookup(params, declared[i].key) == Some(Chosen(declared[i], supplied))
    {
      LookupFinds(params, i);
    }
    KeysEqual(params, declared);
  }

  lemma KeysEqual(a: seq<Field>, b: seq<Field>)
    requires |a| == |b| && forall i :: 0 <= i < |a| ==> a[i].key == b[i].key
    ensures KeySet(a) == KeySet(b)
  {
    forall k
      ensures k in KeySet(a) <==> k in KeySet(b)
    {
      if i :| 0 <= i < |a| && a[i].key == k {
        assert b[i].key == k;
      }
      if j :| 0 <= j < |b| && b[j].key == k {
        assert a[j].key == k;
      }
    }
  }

  /** Gating a plan's own parameters again is refused exactly when some default would not
      have conformed as a value; otherwise it gives back the very same plan. */
  lemma GatingAgain(show: Show, catalogue: seq<Field>, proposal: Value)
    requires Gate(show, catalogue, proposal).Ok?
    ensures var plan := Gate(show, catalogue, proposal).value;
      var declared := Declared(Lookup(catalogue, plan.verb).value);
      var again := Gate(show, catalogue, Again(plan));
      && (again.Ok? <==> DefaultsConform(declared, SuppliedOf(proposal).value))
      && (again.Ok? ==> again.value == plan)
  {
    hide Gate, FillParams, AllFit, Fills, DefaultsConform, Sentence, Lit, KeySet, SuppliedOf, Declared;
    GateExact(show, catalogue, proposal);
    var plan := Gate(show, catalogue, proposal).value;
    var verb := Lookup(catalogue, plan.verb).value;
    var declared, supplied := Declared(verb), SuppliedOf(proposal).value;
    DeclaredDistinct(verb);
    FilledAgain(declared, supplied, plan.params);
    AgainParts(plan);
    GateExact(show, catalogue, Again(plan));
    if Gate(show, catalogue, Again(plan)).Ok? {
      FillsUnique(declared, plan.params, plan.params, Gate(show, catalogue, Again(plan)).value.params);
    }
  }

  lemma DeclaredDistinct(verb: Value)
    ensures DistinctKeys(Declared(verb))
  {
    DictDistinct(Named(ListOf(verb, PARAMS)));
  }

  lemma FillsUnique(declared: seq<Field>, supplied: seq<Field>, a: seq<Field>, b: seq<Field>)
    requires Fills(declared, supplied, a) && Fills(declared, supplied, b)
    ensures a == b
  {
  }

  // ------------------------------------------------------------ the sentence

  lemma {:induction false} DetailInJoin(show: Show, fs: seq<Field>, i: nat) returns (before: Text, after: Text)
    requires i < |fs|
    ensures JoinDetails(show, fs) == before + Detail(show, fs[i]) + after
  {
    hide Lit, Detail;
    if i == 0 {
      before := [];
      after := if |fs| == 1 then [] else Lit(", ") + JoinDetails(show, fs[1..]);
    } else {
      var inner;
      inner, after := DetailInJoin(show, fs[1..], i - 1);
      before := Detail(show, fs[0]) + Lit(", ") + inner;
    }
  }

  /** The sentence a human approves starts with the catalogue's summary and spells out every
      resolved parameter with its value. */
  lemma SentenceCarriesValues(show: Show, verb: Value, params: seq<Field>, f: Field) returns (before: Text, after: Text)
    requires f in params
    ensures Sentence(show, verb, params) == before + (f.key + Lit(": ") + show(f.value)) + after
    ensures Get(verb, SUMMARY).Some? ==> show(Get(verb, SUMMARY).value) <= before
  {
    hide Lit, JoinDetails, SortFields, Sentence, Get;
    var sorted := SortFields(params);
    assert f in sorted;
    var i :| 0 <= i < |sorted| && sorted[i] == f;
    var inner, rest := DetailInJoin(show, sorted, i);
    var head := SentenceHead(show, verb, params);
    before := head + inner;
    after := rest + Lit(")");
    assert head + (inner + Detail(show, f) + rest) + Lit(")") == before + Detail(show, f) + after;
  }

  lemma SentenceHead(show: Show, verb: Value, params: seq<Field>) returns (head: Text)
    requires params != []
    ensures Sentence(show, verb, params) == head + JoinDetails(show, SortFields(params)) + Lit(")")
    ensures Get(verb, SUMMARY).Some? ==> show(Get(verb, SUMMARY).value) <= head
  {
    hide Lit, JoinDetails, SortFields, Get;
    var summary := OrElse(Get(verb, SUMMARY), OrElse(Get(verb, NAME), Str([])));
    head := show(summary) + Lit(" (");
  }

  // ------------------------------------------------------------ plans can be recorded

  ghost predicate WellFormedFields(fs: seq<Field>) {
    forall i :: 0 <= i < |fs| ==> WellFormed(fs[i].value)
  }

  lemma GetWellFormed(v: Value, key: Text)
    requires WellFormed(v)
    ensures WellFormed(GetOrNull(v, key))
  {
  }

  lemma {:induction false} NamedWellFormed(entries: seq<Value>)
    requires forall i :: 0 <= i < |entries| ==> WellFormed(entries[i])
    ensures WellFormedFields(Named(entries))
  {
    if entries != [] {
      NamedWellFormed(entries[1..]);
    }
  }

  lemma DeclaredWellFormed(verb: Value)
    requires WellFormed(verb)
    ensures WellFormedFields(Declared(verb))
  {
    GetWellFormed(verb, PARAMS);
    NamedWellFormed(ListOf(verb, PARAMS));
    var d := Declared(verb);
    forall i | 0 <= i < |d|
      ensures WellFormed(d[i].value)
    {
      assert d[i] in Named(ListOf(verb, PARAMS));
    }
  }

  /** What the gate hands to the audit log is always a dictionary the log can carry. */
  lemma PlanWellFormed(show: Show, catalogue: seq<Field>, proposal: Value)
    requires WellFormedFields(catalogue) && WellFormed(proposal)
    requires Gate(show, catalogue, proposal).Ok?
    ensures var plan := Gate(show, catalogue, proposal).value;
      WellFormed(Obj(plan.params)) && WellFormed(plan.blastRadius) && WellFormed(plan.confirm)
  {
    hide Gate, Sentence, WellFormed, Declared, Lit;
    GateExact(show, catalogue, proposal);
    var plan := Gate(show, catalogue, proposal).value;
    var verb := Lookup(catalogue, plan.verb).value;
    assert WellFormed(verb);
    GetWellFormed(verb, BLAST_RADIUS);
    GetWellFormed(verb, CONFIRM);
    assert WellFormed(DISRUPTIVE) && WellFormed(STRONG) by {
      TextWellFormed(DISRUPTIVE.s);
      TextWellFormed(STRONG.s);
    }
    DeclaredDistinct(verb);
    DeclaredWellFormed(verb);
    SuppliedWellFormed(proposal);
    FilledWellFormed(Declared(verb), SuppliedOf(proposal).value, plan.params);
  }

  lemma TextWellFormed(s: Text)
    ensures WellFormed(Str(s))
  {
  }

  lemma SuppliedWellFormed(proposal: Value)
    requires WellFormed(proposal) && SuppliedOf(proposal).Some?
    ensures WellFormedFields(SuppliedOf(proposal).value)
  {
    GetWellFormed(proposal, PARAMS);
  }

  lemma FilledWellFormed(declared: seq<Field>, supplied: seq<Field>, params: seq<Field>)
    requires DistinctKeys(declared) && WellFormedFields(declared) && WellFormedFields(supplied)
    requires Fills(declared, supplied, params)
    ensures WellFormed(Obj(params))
  {
    assert DistinctKeys(params) by {
      assert forall i :: 0 <= i < |params| ==> params[i].key == declared[i].key;
    }
    forall i | 0 <= i < |params|
      ensures WellFormed(params[i].value)
    {
      hide WellFormed;
      GetWellFormed(declared[i].value, DEFAULT);
      assert WellFormed(Chosen(declared[i], supplied));
    }
  }
}
