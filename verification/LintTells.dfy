/** What the linter's silence says of a catalogue, in so many words, and what a plan made from a
    clean catalogue can be relied on for (tools/steward-lint.py). */
module LintTells {
  import opened Texts
  import opened Json
  import opened JsonOrder
  import opened StewardPlan
  import opened StewardGate
  import opened GateLaws
  import GateTells
  import opened StewardLint
  import opened LintedGate

  predicate OneOf(v: Value, a: string, b: string, c: string) {
    v == Str(Lit(a)) || v == Str(Lit(b)) || v == Str(Lit(c))
  }

  /** A verb the catalogue may have at this place. */
  predicate VerbSound(verbs: seq<Value>, i: nat)
    requires i < |verbs|
  {
    var v := verbs[i];
    var blast, confirm, reversal := GetOrNull(v, BLAST_RADIUS), GetOrNull(v, CONFIRM), GetOrNull(v, REVERSIBLE_BY);
    var readOnly := Truthy(GetOrNull(v, READ_ONLY));
    && (forall k :: 0 <= k < i ==> !Equal(NameOf(v), NameOf(verbs[k])))
    && Truthy(GetOrNull(v, SUMMARY))
    && OneOf(blast, "additive", "reversible", "disruptive")
    && OneOf(confirm, "none", "standard", "strong")
    && !(blast == Str(Lit("disruptive")) && confirm == Str(Lit("none")))
    && (blast == Str(Lit("reversible")) ==> Get(v, REVERSIBLE_BY).Some?)
    && (reversal == Null || exists k :: 0 <= k < |verbs| && Equal(reversal, GetOrNull(verbs[k], NAME)))
    && (readOnly ==> blast == Str(Lit("additive")) && confirm == Str(Lit("none")))
    && (readOnly || Truthy(GetOrNull(v, SPEECH_EXAMPLES)))
    && (Truthy(GetOrNull(v, RETURNS_SECRET)) ==> Truthy(GetOrNull(v, NOTES)))
  }

  predicate Known(ptype: Value) {
    || OneOf(ptype, "string", "bool", "enum") || OneOf(ptype, "duration", "user_ref", "device_ref")
    || OneOf(ptype, "share_ref", "service_ref", "path_ref")
  }

  /** A parameter a verb may take. */
  predicate ParamSound(p: Value) {
    var ptype, values := GetOrNull(p, TYPE), GetOrNull(p, VALUES);
    && Truthy(GetOrNull(p, NAME)) && Known(ptype)
    && (ptype == Str(Lit("enum")) ==>
          Truthy(values) && (Get(p, DEFAULT).Some? ==> Contains(values, Get(p, DEFAULT).value) != Some(false)))
    && (ptype == Str(Lit("string")) ==> Get(p, MAX_LENGTH).Some?)
  }

  predicate EntrySound(entry: Value) {
    Truthy(GetOrNull(entry, SUBJECT)) && Truthy(GetOrNull(entry, REASON))
  }

  predicate AllVerbsSound(verbs: seq<Value>) {
    forall i: nat :: i < |verbs| ==>
      VerbSound(verbs, i) && forall j: nat :: j < |ListOf(verbs[i], PARAMS)| ==> ParamSound(ListOf(verbs[i], PARAMS)[j])
  }

  /** A document the linter reads to the end, of version 1, with sound verbs and a list of what is
      out of reach. */
  predicate DocumentSound(doc: Value) {
    var verbs, excluded := ListOf(doc, VERBS), ListOf(doc, EXCLUDED);
    && Lintable(doc) && Equal(GetOrNull(doc, VERSION), Int(1))
    && verbs != [] && AllVerbsSound(verbs)
    && excluded != [] && forall k: nat :: k < |excluded| ==> EntrySound(excluded[k])
  }

  lemma VerbSoundExact(verbs: seq<Value>, i: nat)
    requires i < |verbs|
    ensures (forall rule: VerbRule :: !VerbBreaks(verbs, i, rule)) <==> VerbSound(verbs, i)
  {
    hide Lit, Get, Equal, NameOf, Truthy, VerbBreaks;
    VerbRules(verbs, i);
    NullIsNoWord();
    if VerbSound(verbs, i) {
      forall rule: VerbRule
        ensures !VerbBreaks(verbs, i, rule)
      {
        match rule
        case DefinedTwice =>
        case _ =>
      }
    }
  }

  lemma NullIsNoWord()
    ensures !Truthy(Null) && forall a, b, c :: !OneOf(Null, a, b, c)
    ensures forall v: Value :: OneOf(v, "additive", "reversible", "disruptive") <==> IsBlast(v)
    ensures forall v: Value :: OneOf(v, "none", "standard", "strong") <==> IsConfirm(v)
    ensures forall v: Value :: IsBlast(v) || IsConfirm(v) ==> Truthy(v)
    ensures DISRUPTIVE == Str(Lit("disruptive")) && NONE == Str(Lit("none")) && ADDITIVE == Str(Lit("additive"))
    ensures REVERSIBLE == Str(Lit("reversible"))
  {
  }

  /** Each rule, broken. */
  lemma VerbRules(verbs: seq<Value>, i: nat)
    requires i < |verbs|
    ensures var v := verbs[i];
      var blast, confirm, reversal := GetOrNull(v, BLAST_RADIUS), GetOrNull(v, CONFIRM), GetOrNull(v, REVERSIBLE_BY);
      && (VerbBreaks(verbs, i, DefinedTwice) <==> exists k :: 0 <= k < i && Equal(NameOf(v), NameOf(verbs[k])))
      && (VerbBreaks(verbs, i, NoSummary) <==> !Truthy(GetOrNull(v, SUMMARY)))
      && (VerbBreaks(verbs, i, NoBlastRadius) <==> !Truthy(blast)) && (VerbBreaks(verbs, i, NoConfirm) <==> !Truthy(confirm))
      && (VerbBreaks(verbs, i, UnknownBlast) <==> blast != Null && !IsBlast(blast))
      && (VerbBreaks(verbs, i, UnknownConfirm) <==> confirm != Null && !IsConfirm(confirm))
      && (VerbBreaks(verbs, i, DisruptiveUnconfirmed) <==> blast == DISRUPTIVE && confirm == NONE)
    ensures var v := verbs[i];
      var blast, confirm, reversal := GetOrNull(v, BLAST_RADIUS), GetOrNull(v, CONFIRM), GetOrNull(v, REVERSIBLE_BY);
      && (VerbBreaks(verbs, i, ReversibleWithoutReversal) <==> blast == REVERSIBLE && Get(v, REVERSIBLE_BY) == None)
      && (VerbBreaks(verbs, i, ReversalNotAVerb) <==> reversal != Null && !NamesAVerb(verbs, reversal))
      && (VerbBreaks(verbs, i, ReadOnlyNotAdditive) <==> Truthy(GetOrNull(v, READ_ONLY)) && blast != ADDITIVE)
      && (VerbBreaks(verbs, i, ReadOnlyConfirms) <==> Truthy(GetOrNull(v, READ_ONLY)) && confirm != NONE)
      && (VerbBreaks(verbs, i, SecretWithoutNotes) <==> Truthy(GetOrNull(v, RETURNS_SECRET)) && !Truthy(GetOrNull(v, NOTES)))
      && (VerbBreaks(verbs, i, NoSpeechExamples) <==>
            !Truthy(GetOrNull(v, READ_ONLY)) && !Truthy(GetOrNull(v, SPEECH_EXAMPLES)))
  {
    hide Lit, Get, Equal, NameOf, Truthy, IsBlast, IsConfirm, NamesAVerb;
  }

  lemma ParamSoundExact(p: Value)
    ensures (forall rule: ParamRule :: !ParamBreaks(p, rule)) <==> ParamSound(p)
  {
    hide Lit, Get, Truthy, Contains, IsParamType, Known, ParamBreaks;
    ParamRules(p);
    KnownTypes(GetOrNull(p, TYPE));
    if ParamSound(p) {
      forall rule: ParamRule
        ensures !ParamBreaks(p, rule)
      {
        match rule
        case Nameless =>
        case _ =>
      }
    }
  }

  lemma KnownTypes(ptype: Value)
    ensures Known(ptype) <==> IsParamType(ptype)
    ensures ENUM == Str(Lit("enum")) && STRING == Str(Lit("string"))
  {
    hide Lit;
  }

  lemma ParamRules(p: Value)
    ensures var ptype, values := GetOrNull(p, TYPE), GetOrNull(p, VALUES);
      && (ParamBreaks(p, Nameless) <==> !Truthy(GetOrNull(p, NAME)))
      && (ParamBreaks(p, UnknownType) <==> !IsParamType(ptype))
      && (ParamBreaks(p, EnumWithoutValues) <==> ptype == ENUM && !Truthy(values))
      && (ParamBreaks(p, EnumDefaultNotAValue) <==>
            ptype == ENUM && Truthy(values) && Get(p, DEFAULT).Some? && Contains(values, Get(p, DEFAULT).value) == Some(false))
      && (ParamBreaks(p, StringWithoutMaxLength) <==> ptype == STRING && Get(p, MAX_LENGTH) == None)
  {
    hide Lit, Get, Truthy, Contains, IsParamType;
  }

  /** The linter is silent exactly on sound documents: no rule is missing and none says more. */
  lemma CleanExactly(doc: Value)
    ensures Clean(doc) <==> DocumentSound(doc)
  {
    hide Lit, ListOf, GetOrNull, Equal, Truthy, VerbBreaks, ParamBreaks, VerbSound, ParamSound, Lintable;
    if Clean(doc) {
      CleanIsSound(doc);
    }
    if DocumentSound(doc) {
      var verbs := ListOf(doc, VERBS);
      forall f: Finding
        ensures !Breaks(doc, f)
      {
        if f.InVerb? && f.verb < |verbs| {
          VerbSoundExact(verbs, f.verb);
        } else if f.InParam? && f.verb < |verbs| && f.param < |ListOf(verbs[f.verb], PARAMS)| {
          ParamSoundExact(ListOf(verbs[f.verb], PARAMS)[f.param]);
        }
      }
    }
  }

  lemma CleanIsSound(doc: Value)
    requires Clean(doc)
    ensures DocumentSound(doc)
  {
    hide Lit, ListOf, GetOrNull, Equal, Truthy, VerbBreaks, ParamBreaks, VerbSound, ParamSound, Lintable;
    var verbs, excluded := ListOf(doc, VERBS), ListOf(doc, EXCLUDED);
    assert !Breaks(doc, WrongVersion) && !Breaks(doc, NoVerbs) && !Breaks(doc, NoExcluded);
    forall i: nat | i < |verbs|
      ensures VerbSound(verbs, i)
      ensures forall j: nat :: j < |ListOf(verbs[i], PARAMS)| ==> ParamSound(ListOf(verbs[i], PARAMS)[j])
    {
      forall rule: VerbRule
        ensures !VerbBreaks(verbs, i, rule)
      {
        CleanVerb(doc, i, rule);
      }
      VerbSoundExact(verbs, i);
      forall j: nat | j < |ListOf(verbs[i], PARAMS)|
        ensures ParamSound(ListOf(verbs[i], PARAMS)[j])
      {
        forall rule: ParamRule
          ensures !ParamBreaks(ListOf(verbs[i], PARAMS)[j], rule)
        {
          CleanParam(doc, i, j, rule);
        }
        ParamSoundExact(ListOf(verbs[i], PARAMS)[j]);
      }
    }
    forall k: nat | k < |excluded|
      ensures EntrySound(excluded[k])
    {
      assert !Breaks(doc, InExcluded(k));
    }
  }

  /** What a plan says of its verb stands in the catalogue, and is one of the words allowed there;
      nothing disruptive goes unconfirmed, what only reads asks for nothing, and a secret handed
      back is explained. */
  lemma PlanOfClean(show: Show, doc: Value, proposal: Value, plan: Plan)
    requires Clean(doc) && Gate(show, Catalogue(doc), proposal) == Ok(plan)
    ensures HasKey(Catalogue(doc), plan.verb)
    ensures var verb := Lookup(Catalogue(doc), plan.verb).value;
      && Get(verb, BLAST_RADIUS) == Some(plan.blastRadius) && Get(verb, CONFIRM) == Some(plan.confirm)
      && OneOf(plan.blastRadius, "additive", "reversible", "disruptive")
      && OneOf(plan.confirm, "none", "standard", "strong")
      && (plan.blastRadius == Str(Lit("disruptive")) ==> plan.confirm != Str(Lit("none")))
      && (Truthy(GetOrNull(verb, READ_ONLY)) ==>
            plan.blastRadius == Str(Lit("additive")) && plan.confirm == Str(Lit("none")))
      && (plan.returnsSecret ==> Truthy(GetOrNull(verb, NOTES)))
  {
    hide Gate, Lit, ListOf, Clean, DocumentSound, GateTells.SentenceSays, Fills, Declared, SuppliedOf, Truthy, ByName, Equal, NameOf, Lookup;
    GateTells.PlanTells(show, Catalogue(doc), proposal, plan);
    var i := PlannedVerb(show, Catalogue(doc), proposal, ListOf(doc, VERBS));
    CleanExactly(doc);
    SoundVerb(doc, i);
    NullIsNoWord();
    WrittenOut(ListOf(doc, VERBS)[i], plan);
  }

  lemma SoundVerb(doc: Value, i: nat)
    requires DocumentSound(doc) && i < |ListOf(doc, VERBS)|
    ensures VerbSound(ListOf(doc, VERBS), i)
  {
    hide VerbSound, ParamSound, ListOf, Lintable, Lit;
  }

  lemma WrittenOut(verb: Value, plan: Plan)
    requires plan.blastRadius == (match Get(verb, BLAST_RADIUS) case Some(b) => b case None => DISRUPTIVE)
    requires plan.confirm == (match Get(verb, CONFIRM) case Some(c) => c case None => STRONG)
    requires GetOrNull(verb, BLAST_RADIUS) != Null && GetOrNull(verb, CONFIRM) != Null
    ensures Get(verb, BLAST_RADIUS) == Some(plan.blastRadius) && Get(verb, CONFIRM) == Some(plan.confirm)
  {
    hide Get, Lit;
  }
}
