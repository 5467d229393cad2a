/** What a clean catalogue guarantees at the gate, and what it leaves open. */
module LintedGate {
  import opened Texts
  import opened Json
  import opened JsonOrder
  import opened StewardPlan
  import opened StewardGate
  import opened GateLaws
  import opened StewardLint

  // ------------------------------------------------------------ from document to catalogue

  lemma {:induction false} NamedFrom(entries: seq<Value>, f: Field)
    requires f in Named(entries)
    ensures exists i :: 0 <= i < |entries| && entries[i] == f.value
    ensures GetOrNull(f.value, NAME) == Str(f.key) && f.key != []
  {
    if f in Named(entries[1..]) {
      NamedFrom(entries[1..], f);
      var i :| 0 <= i < |entries[1..]| && entries[1..][i] == f.value;
      assert entries[i + 1] == f.value;
    } else {
      assert entries[0] == f.value;
    }
  }

  /** What the gate looks up is an entry of the document, under its own name. */
  lemma LookedUp(entries: seq<Value>, name: Text) returns (i: nat)
    requires Lookup(ByName(entries), name).Some?
    ensures i < |entries| && entries[i] == Lookup(ByName(entries), name).value
    ensures GetOrNull(entries[i], NAME) == Str(name)
  {
    var v := Lookup(ByName(entries), name).value;
    NamedFrom(entries, Field(name, v));
    i :| 0 <= i < |entries| && entries[i] == v;
  }

  lemma {:induction false} NamedHas(entries: seq<Value>, i: nat)
    requires i < |entries| && GetOrNull(entries[i], NAME).Str? && GetOrNull(entries[i], NAME).s != []
    ensures HasKey(Named(entries), GetOrNull(entries[i], NAME).s)
  {
    var key := GetOrNull(entries[i], NAME).s;
    var head := Named(entries)[..|Named(entries)| - |Named(entries[1..])|];
    assert Named(entries) == head + Named(entries[1..]);
    if i == 0 {
      assert Named(entries)[0].key == key;
    } else {
      NamedHas(entries[1..], i - 1);
      var j :| 0 <= j < |Named(entries[1..])| && Named(entries[1..])[j].key == key;
      assert Named(entries)[|head| + j].key == key;
    }
  }

  lemma {:induction false} DictHas(fs: seq<Field>, key: Text)
    requires HasKey(fs, key)
    ensures HasKey(Dict(fs), key)
  {
    var front, last := fs[..|fs| - 1], fs[|fs| - 1];
    if last.key != key {
      var i :| 0 <= i < |fs| && fs[i].key == key;
      assert front[i].key == key;
      DictHas(front, key);
    }
  }

  lemma {:induction false} NamedConcat(a: seq<Value>, b: seq<Value>)
    ensures Named(a + b) == Named(a) + Named(b)
  {
    hide GetOrNull;
    if a == [] {
      assert a + b == b;
    } else {
      assert (a + b)[1..] == a[1..] + b;
      NamedConcat(a[1..], b);
    }
  }

  /** Of the entries with one name the gate sees the last. */
  lemma {:induction false} LastOfAName(entries: seq<Value>, i: nat, name: Text)
    requires i < |entries| && name != [] && GetOrNull(entries[i], NAME) == Str(name)
    requires forall j :: i < j < |entries| ==> GetOrNull(entries[j], NAME) != Str(name)
    ensures Lookup(ByName(entries), name) == Some(entries[i])
  {
    hide GetOrNull, Dict, Lookup;
    var front, back := Named(entries[..i]), Named(entries[i + 1..]);
    assert entries == entries[..i] + ([entries[i]] + entries[i + 1..]);
    NamedConcat(entries[..i], [entries[i]] + entries[i + 1..]);
    NamedConcat([entries[i]], entries[i + 1..]);
    assert [entries[i]][1..] == [] && Named([]) == [];
    assert Named([entries[i]]) == [Field(name, entries[i])];
    var fs := front + ([Field(name, entries[i])] + back);
    assert Named(entries) == fs;
    forall j | |front| < j < |fs|
      ensures fs[j].key != name
    {
      var f := fs[j];
      assert f == back[j - |front| - 1];
      NamedFrom(entries[i + 1..], f);
      var k :| 0 <= k < |entries[i + 1..]| && entries[i + 1..][k] == f.value;
      assert entries[i + 1 + k] == f.value;
    }
    DictLast(fs, |front|);
  }

  lemma VerbFound(verbs: seq<Value>, i: nat)
    requires i < |verbs| && GetOrNull(verbs[i], NAME).Str? && GetOrNull(verbs[i], NAME).s != []
    ensures HasKey(ByName(verbs), GetOrNull(verbs[i], NAME).s)
  {
    NamedHas(verbs, i);
    DictHas(Named(verbs), GetOrNull(verbs[i], NAME).s);
  }

  /** The catalogue the gate loads from a clean document. */
  function Catalogue(doc: Value): seq<Field> {
    ByName(ListOf(doc, VERBS))
  }

  lemma CleanLoads(doc: Value)
    requires Clean(doc)
    ensures LoadCatalogue(doc) == Loaded(Catalogue(doc))
    ensures forall k :: 0 <= k < |Catalogue(doc)| ==> Catalogue(doc)[k].value.Obj?
  {
    hide Lit, ParamsLintable, WordsLintable, EntriesAreDicts;
    assert !Breaks(doc, NoVerbs);
    var verbs := ListOf(doc, VERBS);
    assert GetOrNull(doc, VERBS) == Arr(verbs);
    assert forall i :: 0 <= i < |verbs| ==> VerbLintable(verbs[i]);
    var c := Catalogue(doc);
    forall k | 0 <= k < |c|
      ensures c[k].value.Obj?
    {
      assert c[k] in Named(verbs);
      NamedFrom(verbs, c[k]);
    }
  }

  // ------------------------------------------------------------ verbs

  lemma CleanVerb(doc: Value, i: nat, rule: VerbRule)
    requires Clean(doc) && i < |ListOf(doc, VERBS)|
    ensures !VerbBreaks(ListOf(doc, VERBS), i, rule)
  {
    hide VerbBreaks, ListOf, Lit;
    assert !Breaks(doc, InVerb(i, rule));
  }

  lemma CleanParam(doc: Value, i: nat, j: nat, rule: ParamRule)
    requires Clean(doc) && i < |ListOf(doc, VERBS)| && j < |ListOf(ListOf(doc, VERBS)[i], PARAMS)|
    ensures !ParamBreaks(ListOf(ListOf(doc, VERBS)[i], PARAMS)[j], rule)
  {
    hide ParamBreaks, ListOf, Lit;
    assert !Breaks(doc, InParam(i, j, rule));
  }

  /** A clean catalogue never contradicts itself at the gate: the second line of defence is
      never reached. */
  lemma NeverSelfContradicts(show: Show, doc: Value, proposal: Value)
    requires Clean(doc)
    ensures Gate(show, Catalogue(doc), proposal) != Err(SelfContradiction)
  {
    hide Gate, ListOf, ByName, Lit, Clean, VerbBreaks, ContradictsItself;
    var name := GetOrNull(proposal, VERB);
    OnlyContradiction(show, Catalogue(doc), proposal);
    if name.Str? && Lookup(Catalogue(doc), name.s).Some? {
      var i := LookedUp(ListOf(doc, VERBS), name.s);
      CleanVerb(doc, i, DisruptiveUnconfirmed);
      CleanVerb(doc, i, NoBlastRadius);
      CleanVerb(doc, i, NoConfirm);
      NoContradiction(ListOf(doc, VERBS), i);
    }
  }

  /** Disruptive and unconfirmed, once what is absent is read with its default. */
  predicate ContradictsItself(verb: Value) {
    OrElse(Get(verb, BLAST_RADIUS), DISRUPTIVE) == DISRUPTIVE && OrElse(Get(verb, CONFIRM), STRONG) == NONE
  }

  lemma NoContradiction(verbs: seq<Value>, i: nat)
    requires i < |verbs| && !VerbBreaks(verbs, i, DisruptiveUnconfirmed)
    requires !VerbBreaks(verbs, i, NoBlastRadius) && !VerbBreaks(verbs, i, NoConfirm)
    ensures !ContradictsItself(verbs[i])
  {
    hide Get;
  }

  lemma OnlyContradiction(show: Show, catalogue: seq<Field>, proposal: Value)
    ensures Gate(show, catalogue, proposal) == Err(SelfContradiction) ==>
      var name := GetOrNull(proposal, VERB);
      name.Str? && Lookup(catalogue, name.s).Some? && ContradictsItself(Lookup(catalogue, name.s).value)
  {
    hide FillParams, Sentence, Lit, SuppliedOf, KeySet, Declared, Get;
    var name := GetOrNull(proposal, VERB);
    if name.Str? && Lookup(catalogue, name.s).Some? && SuppliedOf(proposal).Some? {
      NoFillContradiction(Declared(Lookup(catalogue, name.s).value), SuppliedOf(proposal).value);
    }
  }

  lemma {:induction false} NoFillContradiction(declared: seq<Field>, supplied: seq<Field>)
    ensures FillParams(declared, supplied) != Err(SelfContradiction)
  {
    if declared != [] {
      NoFillContradiction(declared[1..], supplied);
    }
  }

  /** The document's entry a plan was made from. */
  lemma PlannedVerb(show: Show, catalogue: seq<Field>, proposal: Value, verbs: seq<Value>) returns (i: nat)
    requires catalogue == ByName(verbs) && Gate(show, catalogue, proposal).Ok?
    ensures i < |verbs|
    ensures var plan := Gate(show, catalogue, proposal).value;
      && Lookup(catalogue, plan.verb) == Some(verbs[i])
      && plan.reversibleBy == GetOrNull(verbs[i], REVERSIBLE_BY)
      && plan.blastRadius == OrElse(Get(verbs[i], BLAST_RADIUS), DISRUPTIVE)
  {
    hide Gate, Accepts, Fills, Declared, SuppliedOf, Sentence, Lookup, GetOrNull;
    GateExact(show, catalogue, proposal);
    i := LookedUp(verbs, Gate(show, catalogue, proposal).value.verb);
  }

  /** Only a text equals a text. */
  lemma EqualText(s: Text, v: Value)
    ensures Equal(Str(s), v) <==> v == Str(s)
    ensures Equal(v, Str(s)) <==> v == Str(s)
  {
  }

  lemma ReversalFound(verbs: seq<Value>, i: nat)
    requires i < |verbs| && !VerbBreaks(verbs, i, ReversalNotAVerb)
    ensures var reversal := GetOrNull(verbs[i], REVERSIBLE_BY);
      reversal.Str? && reversal.s != [] ==> HasKey(ByName(verbs), reversal.s)
  {
    hide GetOrNull, ByName, Equal;
    var reversal := GetOrNull(verbs[i], REVERSIBLE_BY);
    if reversal.Str? && reversal.s != [] {
      var k :| 0 <= k < |verbs| && Equal(reversal, GetOrNull(verbs[k], NAME));
      EqualText(reversal.s, GetOrNull(verbs[k], NAME));
      VerbFound(verbs, k);
    }
  }

  lemma NoEmptyName(entries: seq<Value>)
    ensures !HasKey(ByName(entries), [])
  {
    if HasKey(ByName(entries), []) {
      NamedFrom(entries, Field([], Lookup(ByName(entries), []).value));
    }
  }

  /** The reversal a plan promises is one the gate can look up exactly when it is a text that is
      not empty: the linter lets null, the empty name and a number pass, and all that is sure
      of a verb declared reversible is that it has the key. */
  lemma ReversalCanBeLookedUp(show: Show, doc: Value, proposal: Value, plan: Plan)
    requires Clean(doc) && Gate(show, Catalogue(doc), proposal) == Ok(plan)
    ensures var reversal := plan.reversibleBy;
      reversal.Str? && HasKey(Catalogue(doc), reversal.s) <==> reversal.Str? && reversal.s != []
    ensures var verb := Lookup(Catalogue(doc), plan.verb);
      verb.Some? && (plan.blastRadius == REVERSIBLE ==> Get(verb.value, REVERSIBLE_BY).Some?)
  {
    hide Gate, Clean, VerbBreaks, ListOf, GetOrNull, ByName, Get, Lookup, Lit;
    var i := PlannedVerb(show, Catalogue(doc), proposal, ListOf(doc, VERBS));
    CleanVerb(doc, i, ReversalNotAVerb);
    ReversalFound(ListOf(doc, VERBS), i);
    NoEmptyName(ListOf(doc, VERBS));
    CleanVerb(doc, i, ReversibleWithoutReversal);
    ReversalKey(ListOf(doc, VERBS), i);
  }

  lemma ReversalKey(verbs: seq<Value>, i: nat)
    requires i < |verbs| && !VerbBreaks(verbs, i, ReversibleWithoutReversal)
    ensures OrElse(Get(verbs[i], BLAST_RADIUS), DISRUPTIVE) == REVERSIBLE ==> Get(verbs[i], REVERSIBLE_BY).Some?
  {
    hide Get;
    assert REVERSIBLE.s[0] == 114 && DISRUPTIVE.s[0] == 100;
  }

  ghost predicate AllNamed(verbs: seq<Value>) {
    forall i :: 0 <= i < |verbs| ==> GetOrNull(verbs[i], NAME).Str? && GetOrNull(verbs[i], NAME).s != []
  }

  lemma {:induction false} NamedCount(verbs: seq<Value>)
    ensures |Named(verbs)| <= |verbs|
    ensures |Named(verbs)| == |verbs| <==> AllNamed(verbs)
    ensures |Named(verbs)| == |verbs| ==>
      forall i :: 0 <= i < |verbs| ==> Named(verbs)[i].key == GetOrNull(verbs[i], NAME).s
  {
    hide GetOrNull;
    if verbs != [] {
      NamedCount(verbs[1..]);
      var tail := verbs[1..];
      assert forall i :: 0 < i < |verbs| ==> verbs[i] == tail[i - 1];
      if AllNamed(verbs) {
        assert forall i :: 0 <= i < |tail| ==> tail[i] == verbs[i + 1];
      }
    }
  }

  /** A verb without a name passes the linter and is dropped by the loader: a clean
      document's verbs all reach the gate exactly when all of them are named. */
  lemma AllVerbsReachable(doc: Value)
    requires Clean(doc)
    ensures |Catalogue(doc)| == |ListOf(doc, VERBS)| <==> AllNamed(ListOf(doc, VERBS))
  {
    hide Clean, ListOf, Dict, Equal;
    var verbs := ListOf(doc, VERBS);
    NamedCount(verbs);
    if AllNamed(verbs) {
      forall i, j | 0 <= i < j < |verbs|
        ensures Named(verbs)[i].key != Named(verbs)[j].key
      {
        CleanVerb(doc, j, DefinedTwice);
        EqualText(GetOrNull(verbs[j], NAME).s, GetOrNull(verbs[i], NAME));
        assert !Equal(NameOf(verbs[j]), NameOf(verbs[i]));
      }
      DictKeeps(Named(verbs));
    }
  }

  // ------------------------------------------------------------ parameters

  /** A declared parameter of a looked-up verb is one the linter saw. */
  lemma DeclaredSeen(doc: Value, name: Text, p: Field) returns (i: nat, j: nat)
    requires Lookup(Catalogue(doc), name).Some?
    requires p in Declared(Lookup(Catalogue(doc), name).value)
    ensures i < |ListOf(doc, VERBS)| && j < |ListOf(ListOf(doc, VERBS)[i], PARAMS)|
    ensures ListOf(ListOf(doc, VERBS)[i], PARAMS)[j] == p.value
  {
    hide ListOf;
    i := LookedUp(ListOf(doc, VERBS), name);
    var params := ListOf(ListOf(doc, VERBS)[i], PARAMS);
    assert p in Named(params);
    NamedFrom(params, p);
    j :| 0 <= j < |params| && params[j] == p.value;
  }

  /** Read as text: everything but a bool and an enum. */
  predicate IsTextual(spec: Value) {
    GetOrNull(spec, TYPE) != BOOL && GetOrNull(spec, TYPE) != ENUM
  }

  /** In a clean catalogue the gate still finds no length limit, for any text offered, exactly
      when the limit is written but null, or the parameter is a duration and has none. */
  lemma NoLimitExactly(doc: Value, name: Text, p: Field, value: Text)
    requires Clean(doc) && Lookup(Catalogue(doc), name).Some?
    requires p in Declared(Lookup(Catalogue(doc), name).value)
    ensures CheckValue(p.key, p.value, Str(value)) == Some(NoLimit(p.key)) <==>
      IsTextual(p.value) &&
      (Get(p.value, MAX_LENGTH) == Some(Null) ||
       (GetOrNull(p.value, TYPE) == DURATION && Get(p.value, MAX_LENGTH) == None))
  {
    hide Lit, Clean, CheckValue, ListOf, Declared, ParamBreaks;
    var i, j := DeclaredSeen(doc, name, p);
    CleanParam(doc, i, j, StringWithoutMaxLength);
    CleanParam(doc, i, j, UnknownType);
    NoLimitParam(p, value);
  }

  lemma NoLimitParam(p: Field, value: Text)
    requires !ParamBreaks(p.value, StringWithoutMaxLength) && !ParamBreaks(p.value, UnknownType)
    ensures CheckValue(p.key, p.value, Str(value)) == Some(NoLimit(p.key)) <==>
      IsTextual(p.value) &&
      (Get(p.value, MAX_LENGTH) == Some(Null) ||
       (GetOrNull(p.value, TYPE) == DURATION && Get(p.value, MAX_LENGTH) == None))
  {
    hide Lit, LooksLikeDuration, Contains, Exceeds, Strip, Truthy, IsReference, Get;
    TypesDiffer();
    ReferenceIsText(GetOrNull(p.value, TYPE));
  }

  lemma ReferenceIsText(v: Value)
    ensures IsReference(v) ==> v.Str?
  {
  }

  lemma TypesDiffer()
    ensures !IsReference(DURATION) && !IsReference(STRING) && STRING != DURATION
  {
    assert DURATION.s[1] == 117 && STRING.s[1] == 116;
    assert Lit("user_ref")[1] == 115 && Lit("device_ref")[1] == 101 && Lit("share_ref")[1] == 104;
    assert Lit("service_ref")[1] == 101 && Lit("path_ref")[1] == 97;
  }

  /** In a clean catalogue the gate still raises on a value exactly when the limit is written
      but neither null nor a number, or the values of the enum are no list and the value
      cannot be looked for in what they are. */
  lemma ClashesExactly(doc: Value, name: Text, p: Field, value: Value)
    requires Clean(doc) && Lookup(Catalogue(doc), name).Some?
    requires p in Declared(Lookup(Catalogue(doc), name).value)
    ensures var values, limit := GetOrNull(p.value, VALUES), GetOrNull(p.value, MAX_LENGTH);
      CheckValue(p.key, p.value, value) == Some(Raises) <==>
        (IsTextual(p.value) && value.Str? && (limit.Str? || !Hashable(limit))) ||
        (GetOrNull(p.value, TYPE) == ENUM && !values.Arr? && !(values.Str? && value.Str?) && !(values.Obj? && Hashable(value)))
  {
    hide Lit, Clean, CheckValue, ListOf, Declared, ParamBreaks, Clashes, GetOrNull;
    var i, j := DeclaredSeen(doc, name, p);
    CleanParam(doc, i, j, UnknownType);
    CleanParam(doc, i, j, EnumWithoutValues);
    ClashExact(p.key, p.value, value);
    ClashParam(p, value);
  }

  lemma ClashParam(p: Field, value: Value)
    requires !ParamBreaks(p.value, UnknownType) && !ParamBreaks(p.value, EnumWithoutValues)
    ensures var values, limit := GetOrNull(p.value, VALUES), GetOrNull(p.value, MAX_LENGTH);
      Clashes(p.value, value) <==>
        (IsTextual(p.value) && value.Str? && (limit.Str? || !Hashable(limit))) ||
        (GetOrNull(p.value, TYPE) == ENUM && !values.Arr? && !(values.Str? && value.Str?) && !(values.Obj? && Hashable(value)))
  {
    hide Lit, Truthy, IsReference, Get;
    EnumIsNotBool();
    ReferenceIsText(GetOrNull(p.value, TYPE));
    LimitWritten(p.value);
  }

  lemma LimitWritten(spec: Value)
    ensures var limit := GetOrNull(spec, MAX_LENGTH);
      Limit(spec).Str? || !Hashable(Limit(spec)) <==> limit.Str? || !Hashable(limit)
  {
    hide IsReference, Get;
  }

  /** What an enum parameter has in a plan is among its declared values as the gate reads
      them, even where it came from a default, which the gate itself does not check; and so it
      is one of a list of values exactly if they are a list. Written as one text, they let any
      part of the text pass. */
  lemma EnumValuesDeclared(show: Show, doc: Value, proposal: Value, plan: Plan, k: nat)
    requires Clean(doc) && Gate(show, Catalogue(doc), proposal) == Ok(plan)
    ensures HasKey(Catalogue(doc), plan.verb)
    ensures |plan.params| == |Declared(Lookup(Catalogue(doc), plan.verb).value)|
    ensures k < |plan.params| ==>
      var p := Declared(Lookup(Catalogue(doc), plan.verb).value)[k];
      plan.params[k].key == p.key && (GetOrNull(p.value, TYPE) == ENUM ==> EnumDeclared(p.value, plan.params[k].value))
  {
    hide Gate, FillParams, Sentence, Lit, KeySet, Declared, Clean, SuppliedOf, In, Limit, ListOf, Among, NamesRead, ParamBreaks, ParamLintable, PlanOf, Fits, Get, GetOrNull, Lookup;
    GateExact(show, Catalogue(doc), proposal);
    if k < |plan.params| {
      var p := Declared(Lookup(Catalogue(doc), plan.verb).value)[k];
      var i, j := DeclaredSeen(doc, plan.verb, p);
      CleanParam(doc, i, j, EnumDefaultNotAValue);
      CleanParam(doc, i, j, EnumWithoutValues);
      CleanReads(doc, i, j);
      assert Fits(p, SuppliedOf(proposal).value);
      EnumFits(p, SuppliedOf(proposal).value);
      if GetOrNull(p.value, TYPE) == ENUM {
        AmongList(plan.params[k].value, p.value);
      }
    }
  }

  /** Among the values as the gate reads them, and one of a list exactly if they are a list. */
  ghost predicate EnumDeclared(spec: Value, value: Value) {
    var values := GetOrNull(spec, VALUES);
    Among(value, values) && (In(value, ListOf(spec, VALUES)) <==> values.Arr?)
  }

  lemma CleanReads(doc: Value, i: nat, j: nat)
    requires Clean(doc) && i < |ListOf(doc, VERBS)| && j < |ListOf(ListOf(doc, VERBS)[i], PARAMS)|
    ensures ParamLintable(ListOf(ListOf(doc, VERBS)[i], PARAMS)[j])
  {
    hide ParamLintable, ListOf, Lit, EntriesAreDicts, WordsLintable;
    assert VerbLintable(ListOf(doc, VERBS)[i]);
  }

  lemma AmongList(value: Value, spec: Value)
    requires Among(value, GetOrNull(spec, VALUES))
    ensures In(value, ListOf(spec, VALUES)) <==> GetOrNull(spec, VALUES).Arr?
  {
    hide Equal, Lit, GetOrNull;
  }

  lemma EnumFits(p: Field, supplied: seq<Field>)
    requires Fits(p, supplied) && ParamLintable(p.value)
    requires !ParamBreaks(p.value, EnumDefaultNotAValue) && !ParamBreaks(p.value, EnumWithoutValues)
    ensures GetOrNull(p.value, TYPE) == ENUM ==> Among(Chosen(p, supplied), GetOrNull(p.value, VALUES))
  {
    hide ListOf, Equal, Lit, Limit, Contains, Among, Truthy, Get, Lookup;
    EnumIsNotBool();
    var values := GetOrNull(p.value, VALUES);
    ContainsExact(values, Chosen(p, supplied));
    if GetOrNull(p.value, TYPE) == ENUM {
      if Lookup(supplied, p.key).Some? {
        assert Conforms(p.value, Chosen(p, supplied));
      } else {
        assert Get(p.value, DEFAULT) == Some(Chosen(p, supplied));
        OneOfThree(Contains(values, Chosen(p, supplied)));
      }
    }
  }

  lemma OneOfThree(found: Option<bool>)
    ensures found == None || found == Some(true) || found == Some(false)
  {
    match found
    case None =>
    case Some(b) =>
      if !b {
        assert found == Some(false);
      }
  }

  lemma EnumIsNotBool()
    ensures ENUM != BOOL && ENUM.s[0] == 101 && BOOL.s[0] == 98
  {
    assert ENUM.s[0] == 101 && BOOL.s[0] == 98;
  }
}
