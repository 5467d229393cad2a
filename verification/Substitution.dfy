/** Filling the image graph (engine/image/sambuca-image.py): placeholders are replaced inside
    an already-parsed workflow. */
module Substitution {
  import opened Texts
  import opened TextSearch
  import opened JsonNumber
  import opened Json

  predicate Scalar(v: Value) {
    !v.Arr? && !v.Obj?
  }

  /** The values to fill in, in the order of the dictionary that holds them. */
  predicate Scalars(values: seq<Field>) {
    forall i :: 0 <= i < |values| ==> Scalar(values[i].value)
  }

  /** `str(value)` */
  function Show(v: Value): Text
    requires Scalar(v)
  {
    match v
    case Null => Lit("None")
    case Bool(b) => if b then Lit("True") else Lit("False")
    case Int(n) => IntText(n)
    case Float(lexeme) => lexeme
    case Str(s) => s
  }

  // ------------------------------------------------------------ one string

  /** `t.replace(was, now)`; an empty text stands between all characters. */
  function ReplaceAll(t: Text, was: Text, now: Text): Text
    decreases |t|
  {
    if was == [] then now + (if t == [] then [] else [t[0]] + ReplaceAll(t[1..], was, now))
    else if t == [] then []
    else if was <= t then now + ReplaceAll(t[|was|..], was, now)
    else [t[0]] + ReplaceAll(t[1..], was, now)
  }

  function ReplaceField(t: Text, f: Field): Text
    requires Scalar(f.value)
  {
    if Find(t, f.key).Some? then ReplaceAll(t, f.key, Show(f.value)) else t
  }

  /** Every placeholder in turn, each in what the ones before it left. */
  function FillText(t: Text, values: seq<Field>): Text
    requires Scalars(values)
  {
    if values == [] then t
    else ReplaceField(FillText(t, values[..|values| - 1]), values[|values| - 1])
  }

  /** What becomes of a string: a whole placeholder is its value, typed. */
  function Leaf(s: Text, values: seq<Field>): Value
    requires Scalars(values)
  {
    match Lookup(values, s)
    case Some(v) => v
    case None => Str(FillText(s, values))
  }

  method FillLeaf(node: Text, values: seq<Field>) returns (r: Value)
    requires Scalars(values)
    ensures r == Leaf(node, values)
  {
    var whole := Lookup(values, node);
    if whole.Some? {
      return whole.value;
    }
    var text := node;
    for i := 0 to |values|
      invariant text == FillText(node, values[..i])
    {
      assert values[..i + 1][..i] == values[..i];
      if Find(text, values[i].key).Some? {
        text := ReplaceAll(text, values[i].key, Show(values[i].value));
      }
    }
    assert values[..|values|] == values;
    r := Str(text);
  }

  // ------------------------------------------------------------ the whole tree

  function Fill(node: Value, values: seq<Field>): Value
    requires Scalars(values)
    decreases node
  {
    match node
    case Obj(fs) => Obj(seq(|fs|, i requires 0 <= i < |fs| => Field(fs[i].key, Fill(fs[i].value, values))))
    case Arr(items) => Arr(seq(|items|, i requires 0 <= i < |items| => Fill(items[i], values)))
    case Str(s) => Leaf(s, values)
    case _ => node
  }

  /** `_fill` */
  method Walk(node: Value, values: seq<Field>) returns (r: Value)
    requires WellFormed(node) && Scalars(values)
    ensures r == Fill(node, values)
    decreases node
  {
    match node
    case Obj(fs) =>
      var filled: seq<Field> := [];
      for i := 0 to |fs|
        invariant |filled| == i
        invariant forall j :: 0 <= j < i ==> filled[j] == Field(fs[j].key, Fill(fs[j].value, values))
      {
        var v := Walk(fs[i].value, values);
        assert !HasKey(filled, fs[i].key);
        PutNew(filled, Field(fs[i].key, v));
        filled := Put(filled, Field(fs[i].key, v));
      }
      assert filled == Fill(node, values).fields;
      r := Obj(filled);
    case Arr(items) =>
      var filled: seq<Value> := [];
      for i := 0 to |items|
        invariant |filled| == i
        invariant forall j :: 0 <= j < i ==> filled[j] == Fill(items[j], values)
      {
        var v := Walk(items[i], values);
        filled := filled + [v];
      }
      assert filled == Fill(node, values).items;
      r := Arr(filled);
    case Str(s) =>
      r := FillLeaf(s, values);
    case _ =>
      r := node;
  }

  // ------------------------------------------------------------ build_graph

  const MAX_PROMPT := 2000
  const STEPS_MIN := 1
  const STEPS_MAX := 8
  const SIZE_MIN := 256
  const SIZE_MAX := 1536
  const SIZE_MULTIPLE := 16

  const PROMPT: Text := Lit("%PROMPT%")

  datatype Dimension = Width | Height

  datatype ImageError =
    | EmptyPrompt
    | PromptTooLong(length: nat)
    | SizeOutOfRange(which: Dimension, size: int)
    | SizeNotMultiple(which: Dimension, size: int)
    | StepsOutOfRange(steps: int)

  datatype Request = Request(prompt: Text, width: int, height: int, steps: int, seed: int)

  function Numbers(q: Request): seq<Field> {
    [
      Field(Lit("%WIDTH%"), Int(q.width)),
      Field(Lit("%HEIGHT%"), Int(q.height)),
      Field(Lit("%STEPS%"), Int(q.steps)),
      Field(Lit("%SEED%"), Int(q.seed))
    ]
  }

  function Values(q: Request): (r: seq<Field>)
    ensures Scalars(r)
  {
    [Field(PROMPT, Str(q.prompt))] + Numbers(q)
  }

  predicate GoodSize(n: int) {
    SIZE_MIN <= n <= SIZE_MAX && n % SIZE_MULTIPLE == 0
  }

  predicate Acceptable(q: Request) {
    && (exists i :: 0 <= i < |q.prompt| && !IsSpace(q.prompt[i]))
    && |q.prompt| <= MAX_PROMPT
    && GoodSize(q.width) && GoodSize(q.height)
    && STEPS_MIN <= q.steps <= STEPS_MAX
  }

  /** The report is true of the request, and names the first thing wrong with it. */
  predicate Explains(e: ImageError, q: Request) {
    match e
    case EmptyPrompt => AllSpace(q.prompt)
    case PromptTooLong(length) => !AllSpace(q.prompt) && length == |q.prompt| > MAX_PROMPT
    case SizeOutOfRange(which, size) =>
      size == (if which == Width then q.width else q.height) && !(SIZE_MIN <= size <= SIZE_MAX) && (which == Height ==> GoodSize(q.width))
    case SizeNotMultiple(which, size) =>
      size == (if which == Width then q.width else q.height) && SIZE_MIN <= size <= SIZE_MAX && !GoodSize(size) &&
      (which == Height ==> GoodSize(q.width))
    case StepsOutOfRange(steps) =>
      GoodSize(q.width) && GoodSize(q.height) && steps == q.steps && !(STEPS_MIN <= steps <= STEPS_MAX)
  }

  method CheckSize(which: Dimension, n: int) returns (r: Result<(), ImageError>)
    ensures r.Ok? <==> GoodSize(n)
    ensures r.Err? ==> r.error == if SIZE_MIN <= n <= SIZE_MAX then SizeNotMultiple(which, n) else SizeOutOfRange(which, n)
  {
    if n < SIZE_MIN || n > SIZE_MAX {
      return Err(SizeOutOfRange(which, n));
    }
    if n % SIZE_MULTIPLE != 0 {
      return Err(SizeNotMultiple(which, n));
    }
    r := Ok(());
  }

  /** `build_graph`: a graph exactly for the requests within every bound. */
  method BuildGraph(workflow: Value, q: Request) returns (r: Result<Value, ImageError>)
    requires WellFormed(workflow)
    ensures r.Ok? <==> Acceptable(q)
    ensures r.Ok? ==> r.value == Fill(workflow, Values(q))
    ensures r.Err? ==> Explains(r.error, q)
  {
    var i, j := StripShape(q.prompt);
    if Strip(q.prompt) == [] {
      return Err(EmptyPrompt);
    }
    if |q.prompt| > MAX_PROMPT {
      return Err(PromptTooLong(|q.prompt|));
    }
    var width := CheckSize(Width, q.width);
    if width.Err? {
      return Err(width.error);
    }
    var height := CheckSize(Height, q.height);
    if height.Err? {
      return Err(height.error);
    }
    if q.steps < STEPS_MIN || q.steps > STEPS_MAX {
      return Err(StepsOutOfRange(q.steps));
    }
    var graph := Walk(workflow, Values(q));
    r := Ok(graph);
  }
}
