/** The Steward's gate (engine/steward/steward-resolve.py): a proposal becomes a plan, or is
    refused for the first reason that applies. Catalogue entries are the YAML dictionaries
    themselves, so an absent key and a null one stay different. */
module StewardGate {
  import opened Texts
  import opened Json
  import opened JsonOrder
  import opened JsonNumber
  import opened TextSearch
  import opened StewardPlan

  const NAME: Text := Lit("name")
  const VERB: Text := Lit("verb")
  const VERBS: Text := Lit("verbs")
  const PARAMS: Text := Lit("params")
  const TYPE: Text := Lit("type")
  const VALUES: Text := Lit("values")
  const MAX_LENGTH: Text := Lit("max_length")
  const DEFAULT: Text := Lit("default")
  const CONFIRM: Text := Lit("confirm")
  const BLAST_RADIUS: Text := Lit("blast_radius")
  const REVERSIBLE_BY: Text := Lit("reversible_by")
  const RETURNS_SECRET: Text := Lit("returns_secret")
  const SUMMARY: Text := Lit("summary")

  const BOOL := Str(Lit("bool"))
  const ENUM := Str(Lit("enum"))
  const DURATION := Str(Lit("duration"))
  const STRONG := Str(Lit("strong"))
  const NONE := Str(Lit("none"))
  const DISRUPTIVE := Str(Lit("disruptive"))

  const REF_MAX := 256

  // ------------------------------------------------------------ Python values

  predicate In(v: Value, vs: seq<Value>) {
    exists i :: 0 <= i < |vs| && Equal(v, vs[i])
  }

  /** A list or a dictionary cannot be looked for in a set or be a key: Python raises. */
  predicate Hashable(v: Value) {
    !v.Arr? && !v.Obj?
  }

  /** `v in (allowed or [])`: in a list by `==`, in a dictionary as a key, in a text as a part
      of it; `None` is the raised `TypeError`. */
  function Contains(allowed: Value, v: Value): Option<bool> {
    if !Truthy(allowed) then Some(false)
    else
      match allowed
      case Arr(items) => Some(In(v, items))
      case Str(s) => if v.Str? then Some(Find(s, v.s).Some?) else None
      case Obj(fs) => if Hashable(v) then Some(v.Str? && HasKey(fs, v.s)) else None
      case _ => None
  }

  /** `n > limit`; `None` when the limit is no number and the comparison raises. */
  function Exceeds(n: nat, limit: Value): Option<bool> {
    match limit
    case Int(m) => Some(n > m)
    case Bool(b) => Some(n > if b then 1 else 0)
    case Float(lexeme) =>
      Some(lexeme == MINUS_INFINITY || (lexeme != NAN && lexeme != INFINITY && Above(n, DecimalOf(lexeme))))
    case _ => None
  }

  // ------------------------------------------------------------ catalogue

  /** `v.get(key) or []` where that is a list. */
  function ListOf(v: Value, key: Text): seq<Value> {
    var x := GetOrNull(v, key);
    if x.Arr? then x.items else []
  }

  /** The entries that have a name, by name; of two with one name the later. */
  function ByName(entries: seq<Value>): seq<Field> {
    Dict(Named(entries))
  }

  function Named(entries: seq<Value>): seq<Field> {
    if entries == [] then []
    else
      var name := GetOrNull(entries[0], NAME);
      (if name.Str? && name.s != [] then [Field(name.s, entries[0])] else []) + Named(entries[1..])
  }

  /** Reading the names of `v or []` raises on anything but a list of dictionaries, and storing
      under a name that is a list or a dictionary does too. */
  predicate NamesRead(v: Value) {
    !Truthy(v) || (v.Arr? && forall i :: 0 <= i < |v.items| ==> v.items[i].Obj? && NameRead(v.items[i]))
  }

  predicate NameRead(entry: Value) {
    Truthy(GetOrNull(entry, NAME)) ==> Hashable(GetOrNull(entry, NAME))
  }

  datatype Loading =
    | Loaded(catalogue: seq<Field>)
    | DefinesNoVerbs
    | LoadRaises

  /** `load_catalogue` of a document that parsed; `DefinesNoVerbs` is exit code 2. */
  function LoadCatalogue(doc: Value): Loading {
    if !Truthy(GetOrNull(doc, VERBS)) then DefinesNoVerbs
    else if NamesRead(GetOrNull(doc, VERBS)) then Loaded(ByName(ListOf(doc, VERBS)))
    else LoadRaises
  }

  /** Every name of the list is a text, or it is dropped or raises. */
  predicate TextNames(entries: seq<Value>) {
    forall i :: 0 <= i < |entries| ==>
      var name := GetOrNull(entries[i], NAME); Truthy(name) && Hashable(name) ==> name.Str?
  }

  /** What `load_catalogue` returns, but that no parameter has a number for its name. */
  predicate CatalogueShape(catalogue: seq<Field>) {
    forall i :: 0 <= i < |catalogue| ==>
      catalogue[i].value.Obj? && TextNames(ListOf(catalogue[i].value, PARAMS))
  }

  function Declared(verb: Value): seq<Field> {
    ByName(ListOf(verb, PARAMS))
  }

  // ------------------------------------------------------------ one parameter

  predicate IsReference(ptype: Value) {
    || ptype == Str(Lit("user_ref")) || ptype == Str(Lit("device_ref")) || ptype == Str(Lit("share_ref"))
    || ptype == Str(Lit("service_ref")) || ptype == Str(Lit("path_ref"))
  }

  /** The length limit in force: the declared one, even if it is null, else the one for
      references. */
  function Limit(spec: Value): Value {
    OrElse(Get(spec, MAX_LENGTH), if IsReference(GetOrNull(spec, TYPE)) then Int(REF_MAX) else Null)
  }

  predicate IsUnit(c: CodePoint) {
    c == 115 || c == 109 || c == 104 || c == 100 || c == 119
  }

  predicate AllDigits(t: Text) {
    forall i :: 0 <= i < |t| ==> IsDigit(t[i])
  }

  /** `_looks_like_duration`, with ASCII digits. */
  predicate LooksLikeDuration(value: Text) {
    var v := Strip(value);
    && |v| >= 2
    && AllDigits(v[..|v| - 1])
    && IsUnit(v[|v| - 1])
    && NatValue(v[..|v| - 1]) > 0
  }

  /** Why there is no plan. `Raises` is no refusal: an exception escapes. */
  datatype Refusal =
    | NamesNoVerb
    | NoSuchVerb
    | ParamsNotAMapping
    | UnknownParams(names: set<Text>)
    | NotABool(param: Text)
    | NotAmongValues(param: Text)
    | NotText(param: Text)
    | NoLimit(param: Text)
    | TooLong(param: Text, characters: nat)
    | Blank(param: Text)
    | NotADuration(param: Text)
    | Missing(param: Text)
    | SelfContradiction
    | Raises

  /** `_check_value`: `None` when the value passes, else why it is refused. */
  function CheckValue(name: Text, spec: Value, value: Value): Option<Refusal> {
    var ptype := GetOrNull(spec, TYPE);
    if ptype == BOOL then
      if value.Bool? then None else Some(NotABool(name))
    else if ptype == ENUM then
      match Contains(GetOrNull(spec, VALUES), value)
      case None => Some(Raises)
      case Some(found) => if found then None else Some(NotAmongValues(name))
    else if !value.Str? then Some(NotText(name))
    else if !Hashable(ptype) then Some(Raises)
    else CheckText(name, spec, value.s)
  }

  function CheckText(name: Text, spec: Value, value: Text): Option<Refusal> {
    if Limit(spec) == Null then Some(NoLimit(name))
    else
      match Exceeds(|value|, Limit(spec))
      case None => Some(Raises)
      case Some(over) =>
        if over then Some(TooLong(name, |value|))
        else if Strip(value) == [] then Some(Blank(name))
        else if GetOrNull(spec, TYPE) == DURATION && !LooksLikeDuration(value) then Some(NotADuration(name))
        else None
  }

  // ------------------------------------------------------------ a proposal

  /** `str(v)` inside the sentence. */
  type Show = Value -> Text

  function Detail(show: Show, f: Field): Text {
    f.key + Lit(": ") + show(f.value)
  }

  function JoinDetails(show: Show, fs: seq<Field>): Text {
    if fs == [] then []
    else if |fs| == 1 then Detail(show, fs[0])
    else Detail(show, fs[0]) + Lit(", ") + JoinDetails(show, fs[1..])
  }

  /** `_sentence` */
  function Sentence(show: Show, verb: Value, params: seq<Field>): Text {
    var summary := OrElse(Get(verb, SUMMARY), OrElse(Get(verb, NAME), Str([])));
    if params == [] then show(summary)
    else show(summary) + Lit(" (") + JoinDetails(show, SortFields(params)) + Lit(")")
  }

  /** What the loop over the declared parameters builds, or the first refusal in it. */
  function FillParams(declared: seq<Field>, supplied: seq<Field>): Result<seq<Field>, Refusal> {
    if declared == [] then Ok([])
    else
      match FillOne(declared[0], supplied)
      case Err(e) => Err(e)
      case Ok(f) =>
        match FillParams(declared[1..], supplied)
        case Err(e) => Err(e)
        case Ok(fs) => Ok([f] + fs)
  }

  function FillOne(p: Field, supplied: seq<Field>): Result<Field, Refusal> {
    match Lookup(supplied, p.key)
    case Some(value) =>
      (match CheckValue(p.key, p.value, value)
       case Some(e) => Err(e)
       case None => Ok(Field(p.key, value)))
    case None =>
      match Get(p.value, DEFAULT)
      case Some(d) => Ok(Field(p.key, d))
      case None => Err(Missing(p.key))
  }

  function KeySet(fs: seq<Field>): set<Text> {
    set i | 0 <= i < |fs| :: fs[i].key
  }

  /** `proposal.get("params") or {}`; `None` when it is neither falsy nor a dictionary. */
  function SuppliedOf(proposal: Value): Option<seq<Field>> {
    var params := GetOrNull(proposal, PARAMS);
    if !Truthy(params) then Some([]) else if params.Obj? then Some(params.fields) else None
  }

  function OrElse(v: Option<Value>, default: Value): Value {
    match v
    case Some(x) => x
    case None => default
  }

  function PlanOf(show: Show, name: Text, verb: Value, params: seq<Field>): Plan {
    Plan(name, params,
         OrElse(Get(verb, BLAST_RADIUS), DISRUPTIVE),
         OrElse(Get(verb, CONFIRM), STRONG),
         GetOrNull(verb, REVERSIBLE_BY),
         Truthy(GetOrNull(verb, RETURNS_SECRET)),
         Sentence(show, verb, params))
  }

  /** `resolve`, as a function. */
  function Gate(show: Show, catalogue: seq<Field>, proposal: Value): Result<Plan, Refusal> {
    var name := GetOrNull(proposal, VERB);
    if !proposal.Obj? then Err(Raises)
    else if !name.Str? || name.s == [] then Err(NamesNoVerb)
    else
      match Lookup(catalogue, name.s)
      case None => Err(NoSuchVerb)
      case Some(verb) =>
        match SuppliedOf(proposal)
        case None => Err(ParamsNotAMapping)
        case Some(supplied) =>
          var declared := Declared(verb);
          var unknown := KeySet(supplied) - KeySet(declared);
          if !NamesRead(GetOrNull(verb, PARAMS)) then Err(Raises)
          else if unknown != {} then Err(UnknownParams(unknown))
          else
            match FillParams(declared, supplied)
            case Err(e) => Err(e)
            case Ok(params) =>
              var plan := PlanOf(show, name.s, verb, params);
              if plan.blastRadius == DISRUPTIVE && plan.confirm == NONE then Err(SelfContradiction)
              else Ok(plan)
  }

  lemma {:induction false} FillSnoc(declared: seq<Field>, supplied: seq<Field>, i: nat)
    requires i < |declared| && FillParams(declared[..i], supplied).Ok?
    ensures var one := FillOne(declared[i], supplied);
      && (one.Ok? ==> FillParams(declared[..i + 1], supplied) == Ok(FillParams(declared[..i], supplied).value + [one.value]))
      && (one.Err? ==> FillParams(declared, supplied) == Err(one.error))
  {
    hide FillOne;
    if i == 0 {
      assert declared[..1] == [declared[0]] && [declared[0]][1..] == [];
      assert FillParams(declared[..0], supplied) == FillParams([], supplied) == Ok([]);
      var one := FillOne(declared[0], supplied);
      if one.Ok? {
        assert FillParams([declared[0]], supplied) == Ok([one.value] + []);
        assert [] + [one.value] == [one.value] + [];
      }
    } else {
      assert declared[1..][..i - 1] == declared[..i][1..];
      assert declared[1..][..i] == declared[..i + 1][1..];
      FillSnoc(declared[1..], supplied, i - 1);
      var one := FillOne(declared[i], supplied);
      if one.Ok? {
        var f, fs := FillOne(declared[0], supplied).value, FillParams(declared[1..][..i - 1], supplied).value;
        assert [f] + (fs + [one.value]) == ([f] + fs) + [one.value];
        assert declared[1..][i - 1] == declared[i];
      }
    }
  }

  /** `resolve` */
  method Resolve(show: Show, catalogue: seq<Field>, proposal: Value) returns (r: Result<Plan, Refusal>)
    requires CatalogueShape(catalogue)
    ensures r == Gate(show, catalogue, proposal)
  {
    hide FillOne, FillParams, Sentence;
    if !proposal.Obj? {
      return Err(Raises);
    }
    var name := GetOrNull(proposal, VERB);
    if !name.Str? || name.s == [] {
      return Err(NamesNoVerb);
    }
    var verb := Lookup(catalogue, name.s);
    if verb == None {
      return Err(NoSuchVerb);
    }
    var supplied := SuppliedOf(proposal);
    if supplied == None {
      return Err(ParamsNotAMapping);
    }
    if !NamesRead(GetOrNull(verb.value, PARAMS)) {
      return Err(Raises);
    }
    var declared := Declared(verb.value);
    var unknown := KeySet(supplied.value) - KeySet(declared);
    if unknown != {} {
      return Err(UnknownParams(unknown));
    }
    var resolved := [];
    FillNothing(declared, supplied.value);
    for i := 0 to |declared|
      invariant FillParams(declared[..i], supplied.value) == Ok(resolved)
    {
      FillSnoc(declared, supplied.value, i);
      var one := FillOne(declared[i], supplied.value);
      if one.Err? {
        return Err(one.error);
      }
      resolved := resolved + [one.value];
    }
    assert declared[..|declared|] == declared;
    var plan := PlanOf(show, name.s, verb.value, resolved);
    if plan.blastRadius == DISRUPTIVE && plan.confirm == NONE {
      return Err(SelfContradiction);
    }
    return Ok(plan);
  }

  lemma FillNothing(declared: seq<Field>, supplied: seq<Field>)
    ensures FillParams(declared[..0], supplied) == Ok([])
  {
  }
}
