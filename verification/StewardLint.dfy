/** The catalogue linter, structural rules (tools/steward-lint.py). */
module StewardLint {
  import opened Texts
  import opened Json
  import opened JsonOrder
  import opened StewardGate

  const VERSION: Text := Lit("version")
  const EXCLUDED: Text := Lit("excluded")
  const SUBJECT: Text := Lit("subject")
  const REASON: Text := Lit("reason")
  const READ_ONLY: Text := Lit("read_only")
  const NOTES: Text := Lit("notes")
  const SPEECH_EXAMPLES: Text := Lit("speech_examples")

  const ADDITIVE := Str(Lit("additive"))
  const REVERSIBLE := Str(Lit("reversible"))
  const STANDARD := Str(Lit("standard"))
  const STRING := Str(Lit("string"))
  const UNNAMED := Str(Lit("<unnamed>"))

  datatype VerbRule =
    | DefinedTwice
    | NoSummary
    | NoBlastRadius
    | NoConfirm
    | UnknownBlast
    | UnknownConfirm
    | DisruptiveUnconfirmed
    | ReversibleWithoutReversal
    | ReversalNotAVerb
    | ReadOnlyNotAdditive
    | ReadOnlyConfirms
    | SecretWithoutNotes
    | NoSpeechExamples

  datatype ParamRule =
    | Nameless
    | UnknownType
    | EnumWithoutValues
    | EnumDefaultNotAValue
    | StringWithoutMaxLength

  datatype Finding =
    | WrongVersion
    | NoVerbs
    | InVerb(verb: nat, rule: VerbRule)
    | InParam(verb: nat, param: nat, paramRule: ParamRule)
    | NoExcluded
    | InExcluded(entry: nat)

  // ------------------------------------------------------------ what each rule means

  /** `v.get("name", "<unnamed>")` */
  function NameOf(v: Value): Value {
    OrElse(Get(v, NAME), UNNAMED)
  }

  predicate IsBlast(v: Value) {
    v == ADDITIVE || v == REVERSIBLE || v == DISRUPTIVE
  }

  predicate IsConfirm(v: Value) {
    v == NONE || v == STANDARD || v == STRONG
  }

  predicate IsParamType(v: Value) {
    v == STRING || v == BOOL || v == ENUM || v == DURATION || IsReference(v)
  }

  /** Some verb has this value for its name; a verb without one counts as named null. */
  predicate NamesAVerb(verbs: seq<Value>, v: Value) {
    exists k :: 0 <= k < |verbs| && Equal(v, GetOrNull(verbs[k], NAME))
  }

  predicate VerbBreaks(verbs: seq<Value>, i: nat, rule: VerbRule)
    requires i < |verbs|
  {
    var v := verbs[i];
    var blast, confirm, reversal := GetOrNull(v, BLAST_RADIUS), GetOrNull(v, CONFIRM), GetOrNull(v, REVERSIBLE_BY);
    match rule
    case DefinedTwice => exists k :: 0 <= k < i && Equal(NameOf(v), NameOf(verbs[k]))
    case NoSummary => !Truthy(GetOrNull(v, SUMMARY))
    case NoBlastRadius => !Truthy(blast)
    case NoConfirm => !Truthy(confirm)
    case UnknownBlast => blast != Null && !IsBlast(blast)
    case UnknownConfirm => confirm != Null && !IsConfirm(confirm)
    case DisruptiveUnconfirmed => blast == DISRUPTIVE && confirm == NONE
    case ReversibleWithoutReversal => blast == REVERSIBLE && Get(v, REVERSIBLE_BY) == None
    case ReversalNotAVerb => reversal != Null && !NamesAVerb(verbs, reversal)
    case ReadOnlyNotAdditive => Truthy(GetOrNull(v, READ_ONLY)) && blast != ADDITIVE
    case ReadOnlyConfirms => Truthy(GetOrNull(v, READ_ONLY)) && confirm != NONE
    case SecretWithoutNotes => Truthy(GetOrNull(v, RETURNS_SECRET)) && !Truthy(GetOrNull(v, NOTES))
    case NoSpeechExamples => !Truthy(GetOrNull(v, READ_ONLY)) && !Truthy(GetOrNull(v, SPEECH_EXAMPLES))
  }

  predicate ParamBreaks(p: Value, rule: ParamRule) {
    var ptype, values := GetOrNull(p, TYPE), GetOrNull(p, VALUES);
    match rule
    case Nameless => !Truthy(GetOrNull(p, NAME))
    case UnknownType => !IsParamType(ptype)
    case EnumWithoutValues => ptype == ENUM && !Truthy(values)
    case EnumDefaultNotAValue =>
      ptype == ENUM && Truthy(values) && Get(p, DEFAULT).Some? && Contains(values, Get(p, DEFAULT).value) == Some(false)
    case StringWithoutMaxLength => ptype == STRING && Get(p, MAX_LENGTH) == None
  }

  predicate Breaks(doc: Value, f: Finding) {
    var verbs, excluded := ListOf(doc, VERBS), ListOf(doc, EXCLUDED);
    match f
    case WrongVersion => !Equal(GetOrNull(doc, VERSION), Int(1))
    case NoVerbs => verbs == []
    case InVerb(i, rule) => i < |verbs| && VerbBreaks(verbs, i, rule)
    case InParam(i, j, rule) =>
      i < |verbs| && j < |ListOf(verbs[i], PARAMS)| && ParamBreaks(ListOf(verbs[i], PARAMS)[j], rule)
    case NoExcluded => excluded == []
    case InExcluded(k) => k < |excluded| && (!Truthy(GetOrNull(excluded[k], SUBJECT)) || !Truthy(GetOrNull(excluded[k], REASON)))
  }

  // ------------------------------------------------------------ what the linter can read

  predicate ListOrNothing(v: Value) {
    v.Arr? || !Truthy(v)
  }

  /** The linter gets through the parameter: it is a dictionary, its type can be looked for in
      a set, and a default can be looked for among the values of an enum. */
  predicate ParamLintable(p: Value) {
    var ptype, values := GetOrNull(p, TYPE), GetOrNull(p, VALUES);
    && p.Obj? && Hashable(ptype)
    && (ptype == ENUM && Truthy(values) && Get(p, DEFAULT).Some? ==> Contains(values, Get(p, DEFAULT).value).Some?)
  }

  predicate WordsLintable(v: Value) {
    && Hashable(GetOrNull(v, BLAST_RADIUS)) && Hashable(GetOrNull(v, CONFIRM)) && Hashable(GetOrNull(v, REVERSIBLE_BY))
  }

  predicate ParamsLintable(v: Value) {
    && ListOrNothing(GetOrNull(v, PARAMS))
    && forall j :: 0 <= j < |ListOf(v, PARAMS)| ==> ParamLintable(ListOf(v, PARAMS)[j])
  }

  predicate VerbLintable(v: Value) {
    v.Obj? && Hashable(GetOrNull(v, NAME)) && WordsLintable(v) && ParamsLintable(v)
  }

  predicate EntriesAreDicts(doc: Value) {
    && ListOrNothing(GetOrNull(doc, EXCLUDED))
    && forall k :: 0 <= k < |ListOf(doc, EXCLUDED)| ==> ListOf(doc, EXCLUDED)[k].Obj?
  }

  /** On every other document the linter raises. */
  predicate Lintable(doc: Value) {
    && doc.Obj? && ListOrNothing(GetOrNull(doc, VERBS)) && EntriesAreDicts(doc)
    && forall i :: 0 <= i < |ListOf(doc, VERBS)| ==> VerbLintable(ListOf(doc, VERBS)[i])
  }

  /** A document the linter reads to the end, and no structural rule finds anything in. */
  ghost predicate Clean(doc: Value) {
    Lintable(doc) && forall f: Finding :: !Breaks(doc, f)
  }

  // ------------------------------------------------------------ the linter

  predicate IsRequiredRule(r: VerbRule) {
    r.DefinedTwice? || r.NoSummary? || r.NoBlastRadius? || r.NoConfirm?
  }

  predicate IsSafetyRule(r: VerbRule) {
    r.UnknownBlast? || r.UnknownConfirm? || r.DisruptiveUnconfirmed? || r.ReversibleWithoutReversal? || r.ReversalNotAVerb?
  }

  method LintRequired(verbs: seq<Value>, i: nat, seen: seq<Value>) returns (rules: seq<VerbRule>)
    requires i < |verbs| && |seen| == i && forall k :: 0 <= k < i ==> seen[k] == NameOf(verbs[k])
    ensures forall r :: r in rules <==> IsRequiredRule(r) && VerbBreaks(verbs, i, r)
  {
    hide Truthy, GetOrNull, Lit, Equal, NameOf;
    var v := verbs[i];
    rules := [];
    if In(NameOf(v), seen) {
      rules := rules + [DefinedTwice];
    }
    if !Truthy(GetOrNull(v, SUMMARY)) {
      rules := rules + [NoSummary];
    }
    if !Truthy(GetOrNull(v, BLAST_RADIUS)) {
      rules := rules + [NoBlastRadius];
    }
    if !Truthy(GetOrNull(v, CONFIRM)) {
      rules := rules + [NoConfirm];
    }
  }

  lemma SafetyMeans(verbs: seq<Value>, i: nat)
    requires i < |verbs|
    ensures var blast := GetOrNull(verbs[i], BLAST_RADIUS);
      && (VerbBreaks(verbs, i, UnknownBlast) <==> blast != Null && !IsBlast(blast))
      && (VerbBreaks(verbs, i, ReversibleWithoutReversal) <==> blast == REVERSIBLE && Get(verbs[i], REVERSIBLE_BY) == None)
      && (VerbBreaks(verbs, i, DisruptiveUnconfirmed) <==> blast == DISRUPTIVE && GetOrNull(verbs[i], CONFIRM) == NONE)
    ensures var confirm := GetOrNull(verbs[i], CONFIRM);
      VerbBreaks(verbs, i, UnknownConfirm) <==> confirm != Null && !IsConfirm(confirm)
    ensures var reversal := GetOrNull(verbs[i], REVERSIBLE_BY);
      VerbBreaks(verbs, i, ReversalNotAVerb) <==> reversal != Null && !NamesAVerb(verbs, reversal)
  {
    hide GetOrNull, Lit, IsBlast, IsConfirm, NamesAVerb, Get;
  }

  /** `None` is the raised `TypeError`. */
  method LintSafety(verbs: seq<Value>, i: nat) returns (found: Option<seq<VerbRule>>)
    requires i < |verbs|
    ensures found.Some? <==> WordsLintable(verbs[i])
    ensures found.Some? ==> forall r :: r in found.value <==> IsSafetyRule(r) && VerbBreaks(verbs, i, r)
  {
    hide Truthy, GetOrNull, Lit, IsBlast, IsConfirm, NamesAVerb, VerbBreaks, Get;
    var v := verbs[i];
    var blast, confirm, reversal := GetOrNull(v, BLAST_RADIUS), GetOrNull(v, CONFIRM), GetOrNull(v, REVERSIBLE_BY);
    SafetyMeans(verbs, i);
    if !Hashable(blast) || !Hashable(confirm) || !Hashable(reversal) {
      return None;
    }
    var rules := [];
    if blast != Null && !IsBlast(blast) {
      rules := rules + [UnknownBlast];
    }
    if confirm != Null && !IsConfirm(confirm) {
      rules := rules + [UnknownConfirm];
    }
    if blast == DISRUPTIVE && confirm == NONE {
      rules := rules + [DisruptiveUnconfirmed];
    }
    if blast == REVERSIBLE && Get(v, REVERSIBLE_BY) == None {
      rules := rules + [ReversibleWithoutReversal];
    }
    if reversal != Null && !NamesAVerb(verbs, reversal) {
      rules := rules + [ReversalNotAVerb];
    }
    return Some(rules);
  }

  method LintDocumentation(verbs: seq<Value>, i: nat) returns (rules: seq<VerbRule>)
    requires i < |verbs|
    ensures forall r :: r in rules <==> !IsRequiredRule(r) && !IsSafetyRule(r) && VerbBreaks(verbs, i, r)
  {
    hide Truthy, GetOrNull, Lit;
    var v := verbs[i];
    rules := [];
    if Truthy(GetOrNull(v, READ_ONLY)) {
      if GetOrNull(v, BLAST_RADIUS) != ADDITIVE {
        rules := rules + [ReadOnlyNotAdditive];
      }
      if GetOrNull(v, CONFIRM) != NONE {
        rules := rules + [ReadOnlyConfirms];
      }
    }
    if Truthy(GetOrNull(v, RETURNS_SECRET)) && !Truthy(GetOrNull(v, NOTES)) {
      rules := rules + [SecretWithoutNotes];
    }
    if !Truthy(GetOrNull(v, READ_ONLY)) && !Truthy(GetOrNull(v, SPEECH_EXAMPLES)) {
      rules := rules + [NoSpeechExamples];
    }
  }

  method LintParam(p: Value) returns (found: Option<seq<ParamRule>>)
    ensures found.Some? <==> ParamLintable(p)
    ensures found.Some? ==> forall r :: r in found.value <==> ParamBreaks(p, r)
  {
    hide Truthy, GetOrNull, Lit, IsParamType, Contains;
    var ptype, values := GetOrNull(p, TYPE), GetOrNull(p, VALUES);
    if !p.Obj? || !Hashable(ptype) {
      return None;
    }
    var rules := [];
    if !Truthy(GetOrNull(p, NAME)) {
      rules := rules + [Nameless];
    }
    if !IsParamType(ptype) {
      rules := rules + [UnknownType];
    }
    if ptype == ENUM {
      if !Truthy(values) {
        rules := rules + [EnumWithoutValues];
      } else if Get(p, DEFAULT).Some? {
        var among := Contains(values, Get(p, DEFAULT).value);
        if among == None {
          return None;
        }
        if !among.value {
          rules := rules + [EnumDefaultNotAValue];
        }
      }
    }
    if ptype == STRING && Get(p, MAX_LENGTH) == None {
      rules := rules + [StringWithoutMaxLength];
    }
    return Some(rules);
  }

  /** A finding of the first `i` verbs, or of the first `j` parameters of verb `i`. */
  predicate FoundBy(f: Finding, i: nat, j: nat) {
    match f
    case InVerb(v, _) => v < i
    case InParam(v, p, _) => v < i || (v == i && p < j)
    case _ => false
  }

  function TagVerb(i: nat, rules: seq<VerbRule>): (fs: seq<Finding>)
    ensures forall f :: f in fs <==> f.InVerb? && f.verb == i && f.rule in rules
  {
    if rules == [] then [] else [InVerb(i, rules[0])] + TagVerb(i, rules[1..])
  }

  function TagParam(i: nat, j: nat, rules: seq<ParamRule>): (fs: seq<Finding>)
    ensures forall f :: f in fs <==> f.InParam? && f.verb == i && f.param == j && f.paramRule in rules
  {
    if rules == [] then [] else [InParam(i, j, rules[0])] + TagParam(i, j, rules[1..])
  }

  method LintParams(doc: Value, i: nat) returns (found: Option<seq<Finding>>)
    requires i < |ListOf(doc, VERBS)|
    ensures found.Some? <==> ParamsLintable(ListOf(doc, VERBS)[i])
    ensures found.Some? ==> forall f :: f in found.value <==> f.InParam? && f.verb == i && Breaks(doc, f)
  {
    hide ParamBreaks, VerbBreaks, ListOf, Truthy, GetOrNull, Lit, Equal, ParamLintable;
    if !ListOrNothing(GetOrNull(ListOf(doc, VERBS)[i], PARAMS)) {
      return None;
    }
    var params := ListOf(ListOf(doc, VERBS)[i], PARAMS);
    var findings := [];
    for j := 0 to |params|
      invariant forall k :: 0 <= k < j ==> ParamLintable(params[k])
      invariant forall f: Finding :: f in findings <==> f.InParam? && f.verb == i && f.param < j && Breaks(doc, f)
    {
      var rules := LintParam(params[j]);
      if rules == None {
        return None;
      }
      findings := findings + TagParam(i, j, rules.value);
    }
    return Some(findings);
  }

  /** What the set of all names is built from. */
  predicate NamesHashable(verbs: seq<Value>) {
    forall i :: 0 <= i < |verbs| ==> verbs[i].Obj? && Hashable(GetOrNull(verbs[i], NAME))
  }

  predicate BodyLintable(v: Value) {
    WordsLintable(v) && ParamsLintable(v)
  }

  method LintVerbs(doc: Value) returns (found: Option<seq<Finding>>)
    ensures found.Some? <==> forall i :: 0 <= i < |ListOf(doc, VERBS)| ==> BodyLintable(ListOf(doc, VERBS)[i])
    ensures found.Some? ==> forall f :: f in found.value <==> (f.InVerb? || f.InParam?) && Breaks(doc, f)
  {
    hide ParamBreaks, VerbBreaks, ListOf, Truthy, GetOrNull, Lit, Equal, WordsLintable, ParamsLintable;
    var verbs := ListOf(doc, VERBS);
    var findings, seen := [], [];
    for i := 0 to |verbs|
      invariant forall k :: 0 <= k < i ==> BodyLintable(verbs[k])
      invariant |seen| == i && forall k :: 0 <= k < i ==> seen[k] == NameOf(verbs[k])
      invariant forall f: Finding :: f in findings <==> FoundBy(f, i, 0) && Breaks(doc, f)
    {
      var required := LintRequired(verbs, i, seen);
      seen := seen + [NameOf(verbs[i])];
      var safety := LintSafety(verbs, i);
      if safety == None {
        return None;
      }
      var documentation := LintDocumentation(verbs, i);
      var params := LintParams(doc, i);
      if params == None {
        return None;
      }
      findings := findings + TagVerb(i, required + safety.value + documentation) + params.value;
    }
    return Some(findings);
  }

  method LintExcluded(doc: Value) returns (found: Option<seq<Finding>>)
    ensures found.Some? <==> EntriesAreDicts(doc)
    ensures found.Some? ==> forall f :: f in found.value <==> (f.NoExcluded? || f.InExcluded?) && Breaks(doc, f)
  {
    hide ListOf, Truthy, GetOrNull, Lit, Equal;
    if !ListOrNothing(GetOrNull(doc, EXCLUDED)) {
      return None;
    }
    var excluded := ListOf(doc, EXCLUDED);
    var findings := if excluded == [] then [NoExcluded] else [];
    for k := 0 to |excluded|
      invariant forall n :: 0 <= n < k ==> excluded[n].Obj?
      invariant forall f: Finding :: f in findings <==>
        (f.NoExcluded? && excluded == []) || (f.InExcluded? && f.entry < k && Breaks(doc, f))
    {
      if !excluded[k].Obj? {
        return None;
      }
      if !Truthy(GetOrNull(excluded[k], SUBJECT)) || !Truthy(GetOrNull(excluded[k], REASON)) {
        findings := findings + [InExcluded(k)];
      }
    }
    return Some(findings);
  }

  /** `lint`, on any document: it raises exactly on what it cannot read, and otherwise reports
      exactly what some rule finds, so it is silent exactly on a clean document. */
  method Lint(doc: Value) returns (found: Option<seq<Finding>>)
    ensures found.Some? <==> Lintable(doc)
    ensures found.Some? ==> forall f :: f in found.value <==> Breaks(doc, f)
    ensures found == Some([]) <==> Clean(doc)
  {
    hide ListOf, Truthy, GetOrNull, Lit, Equal, VerbBreaks, ParamBreaks, WordsLintable, ParamsLintable, EntriesAreDicts;
    if !doc.Obj? || !ListOrNothing(GetOrNull(doc, VERBS)) || !NamesHashable(ListOf(doc, VERBS)) {
      return None;
    }
    var findings := [];
    if !Equal(GetOrNull(doc, VERSION), Int(1)) {
      findings := findings + [WrongVersion];
    }
    if ListOf(doc, VERBS) == [] {
      findings := findings + [NoVerbs];
    }
    var inVerbs := LintVerbs(doc);
    if inVerbs == None {
      return None;
    }
    var inExcluded := LintExcluded(doc);
    if inExcluded == None {
      return None;
    }
    findings := findings + inVerbs.value + inExcluded.value;
    if findings != [] {
      assert findings[0] in findings;
    }
    return Some(findings);
  }
}
