/** What a prompt can and cannot do to the graph it is put in (engine/image/sambuca-image.py). */
module SubstitutionLaws {
  import opened Texts
  import opened TextSearch
  import opened Json
  import opened JsonNumber
  import opened JsonText
  import opened JsonRoundTrip
  import opened JsonCanonical
  import opened Substitution

  // ------------------------------------------------------------ every place of the tree

  /** The value reached by going down by positions, if there is one. */
  function Locate(v: Value, path: seq<nat>): Option<Value>
    decreases path
  {
    if path == [] then Some(v)
    else if v.Arr? && path[0] < |v.items| then Locate(v.items[path[0]], path[1..])
    else if v.Obj? && path[0] < |v.fields| then Locate(v.fields[path[0]].value, path[1..])
    else None
  }

  function Filled(v: Option<Value>, values: seq<Field>): Option<Value>
    requires Scalars(values)
  {
    if v.Some? then Some(Fill(v.value, values)) else None
  }

  lemma LeafScalar(s: Text, values: seq<Field>)
    requires Scalars(values)
    ensures Scalar(Leaf(s, values))
  {
    if Lookup(values, s).Some? {
      assert Field(s, Lookup(values, s).value) in values;
    }
  }

  /** A place exists in the filled graph exactly if it exists in the workflow, and holds what
      filling makes of the node that stood there: no value can add, drop or move a node. */
  lemma {:induction false} FillEverywhere(v: Value, values: seq<Field>, path: seq<nat>)
    requires Scalars(values)
    ensures Locate(Fill(v, values), path) == Filled(Locate(v, path), values)
    decreases path
  {
    hide Leaf;
    if path != [] {
      match v
      case Arr(items) =>
        if path[0] < |items| {
          FillEverywhere(items[path[0]], values, path[1..]);
        }
      case Obj(fs) =>
        if path[0] < |fs| {
          FillEverywhere(fs[path[0]].value, values, path[1..]);
        }
      case Str(s) => LeafScalar(s, values);
      case _ =>
    }
  }

  /** The same keys in the same order, the same lengths, the same leaves but for strings,
      which stay leaves. */
  ghost predicate SameShape(a: Value, b: Value)
    decreases a
  {
    match a
    case Arr(items) =>
      b.Arr? && |items| == |b.items| && forall i :: 0 <= i < |items| ==> SameShape(items[i], b.items[i])
    case Obj(fs) =>
      b.Obj? && |fs| == |b.fields| &&
      forall i :: 0 <= i < |fs| ==> fs[i].key == b.fields[i].key && SameShape(fs[i].value, b.fields[i].value)
    case Str(_) => Scalar(b)
    case _ => a == b
  }

  lemma {:induction false} FillKeepsShape(v: Value, values: seq<Field>)
    requires Scalars(values)
    ensures SameShape(v, Fill(v, values))
  {
    hide Leaf;
    match v
    case Arr(items) =>
      forall i | 0 <= i < |items|
        ensures SameShape(items[i], Fill(items[i], values))
      {
        FillKeepsShape(items[i], values);
      }
    case Obj(fs) =>
      forall i | 0 <= i < |fs|
        ensures SameShape(fs[i].value, Fill(fs[i].value, values))
      {
        FillKeepsShape(fs[i].value, values);
      }
    case Str(s) => LeafScalar(s, values);
    case _ =>
  }

  // ------------------------------------------------------------ whole leaves

  /** A leaf that is the prompt's placeholder becomes the prompt, whatever the prompt holds. */
  lemma {:induction false} PromptVerbatim(workflow: Value, q: Request, path: seq<nat>)
    requires Locate(workflow, path) == Some(Str(PROMPT))
    ensures Locate(Fill(workflow, Values(q)), path) == Some(Str(q.prompt))
  {
    hide Fill, Locate, PROMPT, Numbers;
    FillEverywhere(workflow, Values(q), path);
    LookupHead(Field(PROMPT, Str(q.prompt)), Numbers(q), PROMPT);
    FillLeafIs(PROMPT, Values(q));
  }

  lemma FillLeafIs(s: Text, values: seq<Field>)
    requires Scalars(values)
    ensures Fill(Str(s), values) == Leaf(s, values)
  {
  }

  predicate Mentions(s: Text, values: seq<Field>) {
    exists i :: 0 <= i < |values| && Find(s, values[i].key).Some?
  }

  /** Every string is a whole placeholder or mentions none. */
  ghost predicate WholeOnly(v: Value, values: seq<Field>) {
    match v
    case Arr(items) => forall i :: 0 <= i < |items| ==> WholeOnly(items[i], values)
    case Obj(fs) => forall i :: 0 <= i < |fs| ==> WholeOnly(fs[i].value, values)
    case Str(s) => HasKey(values, s) || !Mentions(s, values)
    case _ => true
  }

  lemma {:induction false} Unmentioned(s: Text, values: seq<Field>)
    requires Scalars(values) && !Mentions(s, values)
    ensures FillText(s, values) == s
  {
    hide Find;
    if values != [] {
      var front := values[..|values| - 1];
      assert forall i :: 0 <= i < |front| ==> front[i] == values[i];
      Unmentioned(s, front);
    }
  }

  /** With placeholders only as whole leaves, every other leaf comes through unchanged. */
  lemma {:induction false} OtherLeavesUnchanged(v: Value, values: seq<Field>, path: seq<nat>)
    requires Scalars(values) && WholeOnly(v, values)
    requires Locate(v, path).Some? && Scalar(Locate(v, path).value)
    requires Locate(v, path).value.Str? ==> !HasKey(values, Locate(v, path).value.s)
    ensures Locate(Fill(v, values), path) == Locate(v, path)
    decreases path
  {
    hide Find, HasKey, Lookup;
    FillEverywhere(v, values, path);
    if path == [] {
      if v.Str? {
        Unmentioned(v.s, values);
      }
    } else if v.Arr? {
      OtherLeavesUnchanged(v.items[path[0]], values, path[1..]);
    } else if v.Obj? {
      OtherLeavesUnchanged(v.fields[path[0]].value, values, path[1..]);
    }
  }

  // ------------------------------------------------------------ the prompt's reach

  lemma {:induction false} FillTextAppend(s: Text, a: seq<Field>, b: seq<Field>)
    requires Scalars(a) && Scalars(b)
    ensures Scalars(a + b) && FillText(s, a + b) == FillText(FillText(s, a), b)
    decreases |b|
  {
    hide Find, ReplaceField;
    if b == [] {
      assert a + b == a;
    } else {
      var front := b[..|b| - 1];
      FillTextAppend(s, a, front);
      assert (a + b)[..|a + b| - 1] == a + front;
      assert forall i :: 0 <= i < |a + b| ==> (a + b)[i] == if i < |a| then a[i] else b[i - |a|];
    }
  }

  lemma FillTextOne(s: Text, f: Field)
    requires Scalar(f.value)
    ensures FillText(s, [f]) == ReplaceField(s, f)
  {
    var none: seq<Field> := [];
    assert [f][..0] == none;
    assert FillText(s, none) == s;
  }

  lemma FillTextHead(s: Text, q: Request)
    ensures FillText(s, Values(q)) == FillText(ReplaceField(s, Field(PROMPT, Str(q.prompt))), Numbers(q))
  {
    hide Find, ReplaceField, PROMPT;
    FillTextOne(s, Field(PROMPT, Str(q.prompt)));
    FillTextAppend(s, [Field(PROMPT, Str(q.prompt))], Numbers(q));
  }

  /** A string without the prompt's placeholder is filled the same whatever the prompt is. */
  lemma {:induction false} PromptReach(workflow: Value, q: Request, prompt: Text, path: seq<nat>)
    requires Locate(workflow, path).Some? && Scalar(Locate(workflow, path).value)
    requires Locate(workflow, path).value.Str? ==> Find(Locate(workflow, path).value.s, PROMPT).None?
    ensures Locate(Fill(workflow, Values(q)), path) == Locate(Fill(workflow, Values(q.(prompt := prompt))), path)
  {
    hide Find, PROMPT, Locate, Numbers;
    var other := q.(prompt := prompt);
    FillEverywhere(workflow, Values(q), path);
    FillEverywhere(workflow, Values(other), path);
    var node := Locate(workflow, path).value;
    if node.Str? {
      FillTextHead(node.s, q);
      FillTextHead(node.s, other);
      LookupHead(Field(PROMPT, Str(q.prompt)), Numbers(q), node.s);
      LookupHead(Field(PROMPT, Str(prompt)), Numbers(other), node.s);
      FindWhole(PROMPT);
      SameNumbers(q, prompt);
    }
  }

  lemma SameNumbers(q: Request, prompt: Text)
    ensures Numbers(q.(prompt := prompt)) == Numbers(q)
  {
  }

  // ------------------------------------------------------------ the text that is posted

  /** What the service reads from the request body: `json.dumps` without sorting, one space. */
  lemma LoadsPrint(v: Value)
    requires WellFormed(v)
    ensures Loads(Print(v, [32])) == Some(Joined(v))
  {
    hide ParseValue, Print, Joined;
    var t := Print(v, [32]);
    ValueRoundTrip(v, [32], []);
    assert t + [] == t;
    PrintStarts(v, [32]);
    assert SkipSpace(t) == t;
  }

  ghost predicate GoodValues(values: seq<Field>) {
    Scalars(values) && forall i :: 0 <= i < |values| ==> WellFormed(values[i].value)
  }

  lemma {:induction false} FillWellFormed(v: Value, values: seq<Field>)
    requires WellFormed(v) && GoodValues(values)
    ensures WellFormed(Fill(v, values))
  {
    match v
    case Arr(items) =>
      forall i | 0 <= i < |items|
        ensures WellFormed(Fill(items[i], values))
      {
        FillWellFormed(items[i], values);
      }
    case Obj(fs) =>
      forall i | 0 <= i < |fs|
        ensures WellFormed(Fill(fs[i].value, values))
      {
        FillWellFormed(fs[i].value, values);
      }
      assert DistinctKeys(Fill(v, values).fields);
    case Str(s) =>
      if Lookup(values, s).Some? {
        assert Field(s, Lookup(values, s).value) in values;
      }
    case _ =>
  }

  ghost predicate KeysPairFree(v: Value) {
    match v
    case Arr(items) => forall i :: 0 <= i < |items| ==> KeysPairFree(items[i])
    case Obj(fs) => forall i :: 0 <= i < |fs| ==> PairFree(fs[i].key) && KeysPairFree(fs[i].value)
    case _ => true
  }

  lemma {:induction false} JoinedKeepsShape(v: Value)
    requires WellFormed(v) && KeysPairFree(v)
    ensures SameShape(v, Joined(v))
  {
    match v
    case Arr(items) =>
      forall i | 0 <= i < |items|
        ensures SameShape(items[i], Joined(items[i]))
      {
        JoinedKeepsShape(items[i]);
      }
    case Obj(fs) =>
      forall i | 0 <= i < |fs|
        ensures SameShape(fs[i].value, Joined(fs[i].value)) && Combine(fs[i].key) == fs[i].key
      {
        JoinedKeepsShape(fs[i].value);
        CombineKeeps(fs[i].key);
      }
      JoinedObj(fs);
      assert DistinctKeys(JoinedFields(fs));
      DictKeeps(JoinedFields(fs));
    case _ =>
  }

  lemma {:induction false} ShapeTransitive(a: Value, b: Value, c: Value)
    requires SameShape(a, b) && SameShape(b, c)
    ensures SameShape(a, c)
    decreases a
  {
    match a
    case Arr(items) =>
      forall i | 0 <= i < |items|
        ensures SameShape(items[i], c.items[i])
      {
        ShapeTransitive(items[i], b.items[i], c.items[i]);
      }
    case Obj(fs) =>
      forall i | 0 <= i < |fs|
        ensures SameShape(fs[i].value, c.fields[i].value)
      {
        ShapeTransitive(fs[i].value, b.fields[i].value, c.fields[i].value);
      }
    case _ =>
  }

  lemma {:induction false} ShapeKeepsKeys(a: Value, b: Value)
    requires SameShape(a, b) && KeysPairFree(a)
    ensures KeysPairFree(b)
    decreases a
  {
    match a
    case Arr(items) =>
      forall i | 0 <= i < |items|
        ensures KeysPairFree(b.items[i])
      {
        ShapeKeepsKeys(items[i], b.items[i]);
      }
    case Obj(fs) =>
      forall i | 0 <= i < |fs|
        ensures KeysPairFree(b.fields[i].value)
      {
        ShapeKeepsKeys(fs[i].value, b.fields[i].value);
      }
    case _ =>
  }

  lemma ValuesGood(q: Request)
    ensures GoodValues(Values(q))
  {
    hide Lit;
  }

  const PROMPT_KEY: Text := Lit("prompt")
  const CLIENT_KEY: Text := Lit("client_id")

  /** The request body of `submit`. */
  function Body(graph: Value, client: Text): Text {
    Print(Obj([Field(PROMPT_KEY, graph), Field(CLIENT_KEY, Str(client))]), [32])
  }

  lemma BodyKeys()
    ensures PROMPT_KEY != CLIENT_KEY && Combine(PROMPT_KEY) == PROMPT_KEY && Combine(CLIENT_KEY) == CLIENT_KEY
  {
    assert PROMPT_KEY[0] != CLIENT_KEY[0];
    CombineKeeps(PROMPT_KEY);
    CombineKeeps(CLIENT_KEY);
  }

  /** What the service finds under `prompt` is the graph with its surrogate pairs combined. */
  lemma BodyHolds(graph: Value, client: Text) returns (body: Value)
    requires WellFormed(graph)
    ensures Loads(Body(graph, client)) == Some(body) && Get(body, PROMPT_KEY) == Some(Joined(graph))
  {
    hide Lit, Loads, Print, Combine, Dict;
    BodyKeys();
    var fs := [Field(PROMPT_KEY, graph), Field(CLIENT_KEY, Str(client))];
    LoadsPrint(Obj(fs));
    body := Joined(Obj(fs));
    JoinedObj(fs);
    DictKeeps(JoinedFields(fs));
    LookupFinds(JoinedFields(fs), 0);
  }

  /** The prompt is data by construction: under `prompt` the posted body reads back as a graph
      of the workflow's own shape, whatever quotes, braces, backslashes or JSON the prompt
      holds, and as the very graph that was built exactly if no surrogate pair is spelt out
      in it. */
  lemma {:induction false} PostedGraph(workflow: Value, q: Request, client: Text) returns (body: Value, read: Value)
    requires WellFormed(workflow) && KeysPairFree(workflow)
    ensures Loads(Body(Fill(workflow, Values(q)), client)) == Some(body) && Get(body, PROMPT_KEY) == Some(read)
    ensures SameShape(workflow, read)
    ensures read == Fill(workflow, Values(q)) <==> AllPairFree(Fill(workflow, Values(q)))
  {
    hide Fill, Body, Loads, Joined, Values, SameShape, KeysPairFree, AllPairFree, Get, Lit;
    ValuesGood(q);
    var graph := Fill(workflow, Values(q));
    FillWellFormed(workflow, Values(q));
    FillKeepsShape(workflow, Values(q));
    ShapeKeepsKeys(workflow, graph);
    JoinedKeepsShape(graph);
    JoinedKeeps(graph);
    body := BodyHolds(graph, client);
    read := Joined(graph);
    ShapeTransitive(workflow, graph, read);
  }

  // ------------------------------------------------------------ a prompt inside a sentence

  const PERCENT: CodePoint := 37

  function Percents(t: Text): nat {
    if t == [] then 0 else (if t[0] == PERCENT then 1 else 0) + Percents(t[1..])
  }

  lemma {:induction false} PercentsConcat(a: Text, b: Text)
    ensures Percents(a + b) == Percents(a) + Percents(b)
  {
    if a == [] {
      assert a + b == b;
    } else {
      assert (a + b)[1..] == a[1..] + b;
      PercentsConcat(a[1..], b);
    }
  }

  /** Replacing a placeholder by a text without percent signs can only take some away, and
      takes some whenever the placeholder is there. */
  lemma {:induction false} PercentsDrop(t: Text, was: Text, now: Text)
    requires Percents(was) > 0 && Percents(now) == 0
    ensures Percents(ReplaceAll(t, was, now)) <= Percents(t)
    ensures Find(t, was).Some? ==> Percents(ReplaceAll(t, was, now)) < Percents(t)
    decreases |t|
  {
    hide Find, At;
    FindFront(t, was);
    if t == [] {
    } else if was <= t {
      PercentsDrop(t[|was|..], was, now);
      PercentsConcat(now, ReplaceAll(t[|was|..], was, now));
      PercentsConcat(was, t[|was|..]);
      assert was + t[|was|..] == t;
    } else {
      PercentsDrop(t[1..], was, now);
      PercentsConcat([t[0]], ReplaceAll(t[1..], was, now));
      assert [t[0]] + t[1..] == t;
    }
  }

  lemma FindFront(t: Text, was: Text)
    requires was != []
    ensures t == [] ==> Find(t, was).None?
    ensures t != [] && !(was <= t) && Find(t, was).Some? ==> Find(t[1..], was).Some?
  {
    FindShift(t, was);
  }

  lemma NumbersHavePercents(q: Request)
    ensures forall i :: 0 <= i < |Numbers(q)| ==>
      Percents(Numbers(q)[i].key) > 0 && Percents(Show(Numbers(q)[i].value)) == 0
  {
    forall i | 0 <= i < |Numbers(q)|
      ensures Percents(Numbers(q)[i].key) > 0 && Percents(Show(Numbers(q)[i].value)) == 0
    {
      assert Numbers(q)[i].key[0] == PERCENT;
      NoPercents(Show(Numbers(q)[i].value));
    }
  }

  lemma {:induction false} NoPercents(t: Text)
    requires PERCENT !in t
    ensures Percents(t) == 0
  {
    if t != [] {
      NoPercents(t[1..]);
    }
  }

  lemma {:induction false} NumbersDrop(t: Text, values: seq<Field>)
    requires Scalars(values)
    requires forall i :: 0 <= i < |values| ==> Percents(values[i].key) > 0 && Percents(Show(values[i].value)) == 0
    ensures Percents(FillText(t, values)) <= Percents(t)
    ensures Mentions(t, values) ==> FillText(t, values) != t
    decreases |values|
  {
    hide Find, Show;
    if values != [] {
      var front, last := values[..|values| - 1], values[|values| - 1];
      assert forall i :: 0 <= i < |front| ==> front[i] == values[i];
      NumbersDrop(t, front);
      var before := FillText(t, front);
      PercentsDrop(before, last.key, Show(last.value));
      assert Mentions(t, values) ==> Mentions(t, front) || Find(t, last.key).Some?;
    }
  }

  /** Inside a longer string, the sentence the prompt makes is left as it is exactly if it
      mentions none of the other placeholders, which are replaced after it. */
  lemma {:induction false} EmbeddedExact(s: Text, q: Request)
    requires Lookup(Values(q), s).None?
    ensures Leaf(s, Values(q)) == Str(ReplaceField(s, Field(PROMPT, Str(q.prompt)))) <==>
      !Mentions(ReplaceField(s, Field(PROMPT, Str(q.prompt))), Numbers(q))
  {
    hide Find, ReplaceField, PROMPT, Numbers, Mentions;
    FillTextHead(s, q);
    NumbersHavePercents(q);
    var sentence := ReplaceField(s, Field(PROMPT, Str(q.prompt)));
    NumbersDrop(sentence, Numbers(q));
    if !Mentions(sentence, Numbers(q)) {
      Unmentioned(sentence, Numbers(q));
    }
  }

  // ------------------------------------------------------------ words around a prompt

  lemma {:induction false} NothingReplaced(t: Text, was: Text, now: Text)
    requires was != [] && was[0] == PERCENT && PERCENT !in t
    ensures ReplaceAll(t, was, now) == t
    decreases |t|
  {
    if t != [] {
      assert t == [t[0]] + t[1..];
      NothingReplaced(t[1..], was, now);
    }
  }

  lemma {:induction false} ReplacedOnce(pre: Text, was: Text, now: Text, post: Text)
    requires was != [] && was[0] == PERCENT && PERCENT !in pre && PERCENT !in post
    ensures ReplaceAll(pre + was + post, was, now) == pre + now + post
    decreases |pre|
  {
    hide ReplaceAll;
    var t := pre + was + post;
    if pre == [] {
      assert t == was + post;
      ReplaceHit(was, post, now);
      NothingReplaced(post, was, now);
      assert pre + now + post == now + post;
    } else {
      assert t[1..] == pre[1..] + was + post;
      ReplaceSkip(t, was, now);
      ReplacedOnce(pre[1..], was, now, post);
      assert [pre[0]] + (pre[1..] + now + post) == pre + now + post;
    }
  }

  lemma ReplaceHit(was: Text, post: Text, now: Text)
    requires was != []
    ensures ReplaceAll(was + post, was, now) == now + ReplaceAll(post, was, now)
  {
    assert was <= was + post && (was + post)[|was|..] == post;
  }

  lemma ReplaceSkip(t: Text, was: Text, now: Text)
    requires was != [] && t != [] && t[0] != was[0]
    ensures ReplaceAll(t, was, now) == [t[0]] + ReplaceAll(t[1..], was, now)
  {
  }

  /** A key that starts and ends with a percent sign, with no other sign around it. */
  predicate Signed(key: Text) {
    |key| > 1 && key[0] == PERCENT && key[|key| - 1] == PERCENT
  }

  lemma ValuesSigned(q: Request)
    ensures Signed(PROMPT)
    ensures forall i :: 0 <= i < |Numbers(q)| ==> Signed(Numbers(q)[i].key)
    ensures forall i :: 0 <= i < |Values(q)| ==> Signed(Values(q)[i].key)
  {
  }

  /** Signless words around a text add no occurrence of a signed key and take none away. */
  lemma FoundInside(pre: Text, t: Text, post: Text, key: Text)
    requires Signed(key) && PERCENT !in pre && PERCENT !in post
    ensures Find(pre + t + post, key).Some? <==> Find(t, key).Some?
  {
    hide Find;
    var whole := pre + t + post;
    forall k: nat | At(whole, key, k)
      ensures k >= |pre| && At(t, key, k - |pre|)
    {
      assert whole[k] == whole[k..k + |key|][0] == PERCENT;
      assert whole[k + |key| - 1] == whole[k..k + |key|][|key| - 1] == PERCENT;
      assert forall i :: 0 <= i < |pre| ==> whole[i] == pre[i];
      assert forall i :: |pre| + |t| <= i < |whole| ==> whole[i] == post[i - |pre| - |t|];
      assert whole[k..k + |key|] == t[k - |pre|..k - |pre| + |key|];
    }
    forall k: nat | At(t, key, k)
      ensures At(whole, key, |pre| + k)
    {
      assert whole[|pre| + k..|pre| + k + |key|] == t[k..k + |key|];
    }
  }

  lemma MentionsInside(pre: Text, t: Text, post: Text, values: seq<Field>)
    requires PERCENT !in pre && PERCENT !in post && forall i :: 0 <= i < |values| ==> Signed(values[i].key)
    ensures Mentions(pre + t + post, values) <==> Mentions(t, values)
  {
    hide Find, Signed;
    forall i | 0 <= i < |values|
      ensures Find(pre + t + post, values[i].key).Some? <==> Find(t, values[i].key).Some?
    {
      FoundInside(pre, t, post, values[i].key);
    }
  }

  lemma NotAKey(pre: Text, post: Text, q: Request)
    requires PERCENT !in pre && PERCENT !in post && pre + post != []
    ensures Lookup(Values(q), pre + PROMPT + post).None?
  {
    hide Numbers, Lookup;
    ValuesSigned(q);
    var s := pre + PROMPT + post;
    assert pre != [] ==> s[0] == pre[0];
    assert post != [] ==> s[|s| - 1] == post[|post| - 1];
    assert !Signed(s);
    assert forall i :: 0 <= i < |Values(q)| ==> Values(q)[i].key != s;
  }

  /** In words of its own, with no sign in them, the prompt arrives as it was typed exactly if
      it mentions no other placeholder itself. */
  lemma {:induction false} PromptInSentence(pre: Text, post: Text, q: Request)
    requires PERCENT !in pre && PERCENT !in post && pre + post != []
    ensures Leaf(pre + PROMPT + post, Values(q)) == Str(pre + q.prompt + post) <==> !Mentions(q.prompt, Numbers(q))
  {
    hide Find, Numbers, Mentions, Leaf, Lookup, PROMPT;
    var s := pre + PROMPT + post;
    ValuesSigned(q);
    NotAKey(pre, post, q);
    ReplacedOnce(pre, PROMPT, q.prompt, post);
    FoundInside(pre, PROMPT, post, PROMPT);
    FindWhole(PROMPT);
    EmbeddedExact(s, q);
    MentionsInside(pre, q.prompt, post, Numbers(q));
  }

  // ------------------------------------------------------------ the numbers

  /** The placeholder stands for this number of the request. */
  predicate StandsFor(key: Text, n: int, q: Request) {
    || (key == Lit("%WIDTH%") && n == q.width) || (key == Lit("%HEIGHT%") && n == q.height)
    || (key == Lit("%STEPS%") && n == q.steps) || (key == Lit("%SEED%") && n == q.seed)
  }

  /** A percent sign at either end and nowhere else. */
  predicate Marked(key: Text) {
    Signed(key) && forall i :: 0 < i < |key| - 1 ==> key[i] != PERCENT
  }

  lemma PlaceholdersMarked(q: Request)
    ensures forall i :: 0 <= i < 5 ==> Marked(Values(q)[i].key)
    ensures |Values(q)| == 5 && DistinctKeys(Values(q))
  {
    assert |Lit("%WIDTH%")| == 7 && |Lit("%HEIGHT%")| == 8 && |Lit("%STEPS%")| == 7 && |Lit("%SEED%")| == 6 && |PROMPT| == 8;
    assert Lit("%WIDTH%")[1] == 87 && Lit("%STEPS%")[1] == 83 && PROMPT[1] == 80 && Lit("%HEIGHT%")[1] == 72;
  }

  lemma WhereItStands(key: Text, n: int, q: Request) returns (i: nat)
    requires StandsFor(key, n, q)
    ensures 1 <= i < 5 && i < |Values(q)| && Values(q)[i] == Field(key, Int(n))
  {
    hide Lit;
    i := if key == Lit("%WIDTH%") && n == q.width then 1
         else if key == Lit("%HEIGHT%") && n == q.height then 2
         else if key == Lit("%STEPS%") && n == q.steps then 3 else 4;
  }

  /** A leaf that is the placeholder of a number becomes that number, not its text. */
  lemma {:induction false} NumberTyped(workflow: Value, q: Request, path: seq<nat>, key: Text, n: int)
    requires StandsFor(key, n, q) && Locate(workflow, path) == Some(Str(key))
    ensures Locate(Fill(workflow, Values(q)), path) == Some(Int(n))
  {
    hide Fill, Locate, PROMPT, Numbers, Values, Lookup, DistinctKeys, StandsFor;
    var i := WhereItStands(key, n, q);
    PlaceholdersMarked(q);
    LookupFinds(Values(q), i);
    FillEverywhere(workflow, Values(q), path);
    FillLeafIs(key, Values(q));
  }

  /** One placeholder is never part of another. */
  lemma MarkedApart(a: Text, b: Text)
    requires Marked(a) && Marked(b) && Find(a, b).Some?
    ensures a == b
  {
    var k := Find(a, b).value;
    assert a[k] == a[k..k + |b|][0] == PERCENT;
    assert a[k + |b| - 1] == a[k..k + |b|][|b| - 1] == PERCENT;
    assert k == 0 && |b| == |a|;
  }

  lemma NumberSign(n: int)
    ensures PERCENT !in IntText(n)
  {
  }

  lemma NoSignNoKey(t: Text, key: Text)
    requires PERCENT !in t && Signed(key)
    ensures Find(t, key).None?
  {
    hide Find;
    forall k: nat
      ensures !At(t, key, k)
    {
      if k + |key| <= |t| {
        assert t[k] == t[k..k + |key|][0];
      }
    }
  }

  lemma NothingSigned(t: Text, values: seq<Field>)
    requires PERCENT !in t && forall i :: 0 <= i < |values| ==> Signed(values[i].key)
    ensures !Mentions(t, values)
  {
    hide Find;
    forall i | 0 <= i < |values|
      ensures Find(t, values[i].key).None?
    {
      NoSignNoKey(t, values[i].key);
    }
  }

  lemma OnlyItself(pre: Text, post: Text, q: Request, i: nat)
    requires PERCENT !in pre && PERCENT !in post && i < 5
    ensures |Values(q)| == 5 && !Mentions(pre + Values(q)[i].key + post, Values(q)[..i])
  {
    hide Find, Numbers, PROMPT, Values;
    PlaceholdersMarked(q);
    var front := Values(q)[..i];
    forall j | 0 <= j < |front|
      ensures Find(pre + Values(q)[i].key + post, front[j].key).None?
    {
      FoundInside(pre, Values(q)[i].key, post, front[j].key);
      if Find(Values(q)[i].key, front[j].key).Some? {
        MarkedApart(Values(q)[i].key, front[j].key);
      }
    }
  }

  /** Inside a sentence the number is written in digits. */
  lemma {:induction false} NumberInSentence(pre: Text, post: Text, q: Request, key: Text, n: int)
    requires StandsFor(key, n, q) && PERCENT !in pre && PERCENT !in post && pre + post != []
    ensures Leaf(pre + key + post, Values(q)) == Str(pre + IntText(n) + post)
  {
    hide Find, Numbers, PROMPT, Values, Mentions, FillText, ReplaceAll, Lookup, IntText, StandsFor, DistinctKeys;
    var i := WhereItStands(key, n, q);
    var vs, s := Values(q), pre + key + post;
    PlaceholdersMarked(q);
    var front, back := vs[..i], vs[i + 1..];
    assert vs == front + ([vs[i]] + back);
    ScalarParts(vs, i);
    NotAPlaceholder(pre, post, q, i);
    OnlyItself(pre, post, q, i);
    Unmentioned(s, front);
    FillTextAppend(s, front, [vs[i]] + back);
    FillTextAppend(s, [vs[i]], back);
    FillTextOne(s, vs[i]);
    FoundInside(pre, key, post, key);
    FindWhole(key);
    ReplacedOnce(pre, key, IntText(n), post);
    NumberSign(n);
    var r := pre + IntText(n) + post;
    assert PERCENT !in r;
    assert forall j :: 0 <= j < |back| ==> back[j] == vs[i + 1 + j];
    NothingSigned(r, back);
    Unmentioned(r, back);
  }

  lemma ScalarParts(vs: seq<Field>, i: nat)
    requires Scalars(vs) && i < |vs|
    ensures Scalars(vs[..i]) && Scalars([vs[i]]) && Scalars(vs[i + 1..]) && Scalars([vs[i]] + vs[i + 1..])
  {
  }

  lemma NotAPlaceholder(pre: Text, post: Text, q: Request, i: nat)
    requires PERCENT !in pre && PERCENT !in post && pre + post != [] && i < 5
    ensures |Values(q)| == 5 && Lookup(Values(q), pre + Values(q)[i].key + post).None?
  {
    hide Numbers, Lookup, Values;
    PlaceholdersMarked(q);
    var s := pre + Values(q)[i].key + post;
    assert pre != [] ==> s[0] == pre[0];
    assert post != [] ==> s[|s| - 1] == post[|post| - 1];
    assert !Signed(s);
    assert forall j :: 0 <= j < |Values(q)| ==> Values(q)[j].key != s;
  }

  // ------------------------------------------------------------ every occurrence

  /** The parts with this text between them. */
  function Woven(parts: seq<Text>, between: Text): Text
    requires parts != []
  {
    if |parts| == 1 then parts[0] else parts[0] + between + Woven(parts[1..], between)
  }

  lemma {:induction false} ReplacedFirst(pre: Text, was: Text, now: Text, rest: Text)
    requires was != [] && was[0] == PERCENT && PERCENT !in pre
    ensures ReplaceAll(pre + was + rest, was, now) == pre + now + ReplaceAll(rest, was, now)
    decreases |pre|
  {
    hide ReplaceAll;
    var t := pre + was + rest;
    var after := ReplaceAll(rest, was, now);
    if pre == [] {
      assert t == was + rest;
      ReplaceHit(was, rest, now);
      assert pre + now + after == now + after;
    } else {
      assert t[1..] == pre[1..] + was + rest;
      ReplaceSkip(t, was, now);
      ReplacedFirst(pre[1..], was, now, rest);
      assert [pre[0]] + (pre[1..] + now + after) == pre + now + after;
    }
  }

  /** A placeholder is replaced wherever it stands, and nothing else is touched. */
  lemma {:induction false} ReplacedEverywhere(parts: seq<Text>, was: Text, now: Text)
    requires parts != [] && was != [] && was[0] == PERCENT
    requires forall i :: 0 <= i < |parts| ==> PERCENT !in parts[i]
    ensures ReplaceAll(Woven(parts, was), was, now) == Woven(parts, now)
    decreases parts
  {
    hide ReplaceAll;
    if |parts| == 1 {
      NothingReplaced(parts[0], was, now);
    } else {
      ReplacedFirst(parts[0], was, now, Woven(parts[1..], was));
      ReplacedEverywhere(parts[1..], was, now);
    }
  }
}
