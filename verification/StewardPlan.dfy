/** What the gate hands on: the plan of one operation (engine/steward/steward-resolve.py). */
module StewardPlan {
  import opened Texts
  import opened Json

  datatype Plan = Plan(
    verb: Text,
    params: seq<Field>,
    blastRadius: Value,
    confirm: Value,
    reversibleBy: Value,
    returnsSecret: bool,
    sentence: Text)
}
