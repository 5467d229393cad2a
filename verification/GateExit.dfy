/** How the gate's program ends (`main` in engine/steward/steward-resolve.py): its exit code is
    to tell a refusal from rules that cannot be read. */
module GateExit {
  import opened Texts
  import opened Json
  import opened JsonText
  import opened StewardPlan
  import opened StewardGate
  import opened GateLaws
  import opened StewardLint
  import opened LintedGate

  /** `Escapes`: an exception nothing catches. */
  datatype Ending =
    | NotJson
    | NoVerbsDefined
    | Escapes
    | Refused(refusal: Refusal)
    | Printed(plan: Plan)

  /** `main`, given the document that was read and the proposal as text. */
  function Ends(show: Show, doc: Value, raw: Text): Ending {
    match Loads(raw)
    case None => NotJson
    case Some(proposal) =>
      match LoadCatalogue(doc)
      case DefinesNoVerbs => NoVerbsDefined
      case LoadRaises => Escapes
      case Loaded(catalogue) =>
        match Gate(show, catalogue, proposal)
        case Ok(plan) => Printed(plan)
        case Err(e) => if e == Raises then Escapes else Refused(e)
  }

  function ExitCode(e: Ending): int {
    match e
    case Printed(_) => 0
    case NoVerbsDefined => 2
    case _ => 1
  }

  /** A catalogue loads exactly if its verbs are a list that is not empty, of dictionaries whose
      names, where they have one, are no list and no dictionary. */
  lemma LoadsExactly(doc: Value)
    ensures LoadCatalogue(doc).Loaded? <==>
      var verbs := GetOrNull(doc, VERBS);
      && verbs.Arr? && verbs.items != []
      && forall i :: 0 <= i < |verbs.items| ==>
           && verbs.items[i].Obj?
           && match GetOrNull(verbs.items[i], NAME)
              case Arr(names) => names == []
              case Obj(names) => names == []
              case _ => true
  {
    hide Lit, GetOrNull, ByName;
    var verbs := GetOrNull(doc, VERBS);
    if verbs.Arr? {
      assert forall i :: 0 <= i < |verbs.items| ==>
        (NameRead(verbs.items[i]) <==>
           match GetOrNull(verbs.items[i], NAME)
           case Arr(names) => names == []
           case Obj(names) => names == []
           case _ => true);
    }
  }

  /** A catalogue that cannot be loaded ends in exit code 2, and not in that of a refusal,
      exactly when it defines no verbs: verbs that are there but are no list of dictionaries
      with names raise, which exits like a refusal. */
  lemma UnreadableExact(show: Show, doc: Value, raw: Text)
    requires !LoadCatalogue(doc).Loaded? && Loads(raw).Some?
    ensures ExitCode(Ends(show, doc, raw)) == if Truthy(GetOrNull(doc, VERBS)) then 1 else 2
  {
    hide Loads, Gate, NamesRead;
  }

  /** The failing input: a list of verbs that are names only. Every proposal exits with the
      code of a refusal. */
  lemma NamesOnly(show: Show, raw: Text)
    ensures var doc := Obj([Field(VERBS, Arr([Str(Lit("x"))]))]);
      !LoadCatalogue(doc).Loaded? && ExitCode(Ends(show, doc, raw)) == 1
  {
    hide Loads, Gate, Lit;
    var doc := Obj([Field(VERBS, Arr([Str(Lit("x"))]))]);
    assert Get(doc, VERBS) == Some(Arr([Str(Lit("x"))]));
    assert !Arr([Str(Lit("x"))]).items[0].Obj?;
  }

  /** On a clean catalogue the codes mean what they should, but where the gate itself raises:
      a plan is printed exactly if the proposal is accepted, and nothing exits with 2. */
  lemma CleanExits(show: Show, doc: Value, raw: Text)
    requires Clean(doc) && Loads(raw).Some?
    ensures ExitCode(Ends(show, doc, raw)) == if Accepts(Catalogue(doc), Loads(raw).value) then 0 else 1
    ensures Ends(show, doc, raw) == Escapes <==> Gate(show, Catalogue(doc), Loads(raw).value) == Err(Raises)
  {
    hide Loads, Gate, NamesRead, Accepts, Clean, Catalogue, LoadCatalogue, Fills, PlanOf, Declared, SuppliedOf, Lookup, GetOrNull, Lit;
    CleanLoads(doc);
    GateExact(show, Catalogue(doc), Loads(raw).value);
  }
}
