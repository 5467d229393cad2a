/** JSON values as Python holds them after `json.loads`: objects keep their insertion
    order, and a number with a fraction or exponent is carried by its own text. */
module Json {
  import opened Texts
  import opened JsonNumber

  datatype Value =
    | Null
    | Bool(b: bool)
    | Int(n: int)
    | Float(lexeme: Text)
    | Str(s: Text)
    | Arr(items: seq<Value>)
    | Obj(fields: seq<Field>)

  datatype Field = Field(key: Text, value: Value)

  // ------------------------------------------------------------ dictionaries

  predicate HasKey(fs: seq<Field>, key: Text) {
    exists i :: 0 <= i < |fs| && fs[i].key == key
  }

  predicate DistinctKeys(fs: seq<Field>) {
    forall i, j :: 0 <= i < j < |fs| ==> fs[i].key != fs[j].key
  }

  function Lookup(fs: seq<Field>, key: Text): (r: Option<Value>)
    ensures r.Some? <==> HasKey(fs, key)
    ensures r.Some? ==> Field(key, r.value) in fs
  {
    if fs == [] then None
    else if fs[0].key == key then
      Some(fs[0].value)
    else
      assert forall i :: 0 < i < |fs| ==> fs[i] == fs[1..][i - 1];
      Lookup(fs[1..], key)
  }

  /** `d.get(key)` and `key in d` on a dictionary; nothing on any other value. */
  function Get(v: Value, key: Text): Option<Value> {
    if v.Obj? then Lookup(v.fields, key) else None
  }

  lemma LookupHead(f: Field, rest: seq<Field>, key: Text)
    ensures Lookup([f] + rest, key) == if f.key == key then Some(f.value) else Lookup(rest, key)
    ensures Lookup([], key) == None
  {
    assert ([f] + rest)[1..] == rest;
  }

  lemma {:induction false} LookupFinds(fs: seq<Field>, i: nat)
    requires DistinctKeys(fs) && i < |fs|
    ensures Lookup(fs, fs[i].key) == Some(fs[i].value)
  {
    if i > 0 {
      LookupFinds(fs[1..], i - 1);
    }
  }

  /** `d[key] = value`: an existing key keeps its place. */
  function Put(fs: seq<Field>, f: Field): (r: seq<Field>)
    ensures |r| == if HasKey(fs, f.key) then |fs| else |fs| + 1
    ensures forall g :: g in r ==> g == f || g in fs
    ensures forall k :: HasKey(r, k) <==> HasKey(fs, k) || k == f.key
  {
    if fs == [] then
      assert [f][0] == f;
      [f]
    else
      HasKeyCons(fs);
      if fs[0].key == f.key then
        HasKeyCons([f] + fs[1..]);
        [f] + fs[1..]
      else
        HasKeyCons([fs[0]] + Put(fs[1..], f));
        [fs[0]] + Put(fs[1..], f)
  }

  lemma HasKeyCons(fs: seq<Field>)
    requires fs != []
    ensures forall k :: HasKey(fs, k) <==> fs[0].key == k || HasKey(fs[1..], k)
  {
    forall k | HasKey(fs, k) && fs[0].key != k
      ensures HasKey(fs[1..], k)
    {
      var i :| 0 <= i < |fs| && fs[i].key == k;
      assert fs[1..][i - 1].key == k;
    }
  }

  lemma DistinctCons(fs: seq<Field>)
    requires fs != []
    ensures DistinctKeys(fs) <==> !HasKey(fs[1..], fs[0].key) && DistinctKeys(fs[1..])
  {
    if !HasKey(fs[1..], fs[0].key) && DistinctKeys(fs[1..]) {
      forall i, j | 0 <= i < j < |fs|
        ensures fs[i].key != fs[j].key
      {
        assert fs[j] == fs[1..][j - 1];
        if i > 0 {
          assert fs[i] == fs[1..][i - 1];
        }
      }
    }
  }

  lemma {:induction false} PutDistinct(fs: seq<Field>, f: Field)
    requires DistinctKeys(fs)
    ensures DistinctKeys(Put(fs, f))
  {
    if fs != [] {
      DistinctCons(fs);
      var r := Put(fs, f);
      if fs[0].key == f.key {
        assert r[1..] == fs[1..];
      } else {
        PutDistinct(fs[1..], f);
        assert r[1..] == Put(fs[1..], f);
      }
      DistinctCons(r);
    }
  }

  lemma {:induction false} PutNew(fs: seq<Field>, f: Field)
    requires !HasKey(fs, f.key)
    ensures Put(fs, f) == fs + [f]
  {
    if fs != [] {
      HasKeyCons(fs);
      PutNew(fs[1..], f);
    }
  }

  /** A dictionary built by storing the fields one after another: the last value of a
      repeated key wins. */
  function Dict(fs: seq<Field>): (r: seq<Field>)
    ensures |r| <= |fs|
    ensures forall g :: g in r ==> g in fs
    ensures forall k :: HasKey(r, k) ==> HasKey(fs, k)
  {
    if fs == [] then []
    else
      var front := fs[..|fs| - 1];
      var r := Put(Dict(front), fs[|fs| - 1]);
      assert forall k :: HasKey(front, k) ==> HasKey(fs, k) by {
        assert forall i :: 0 <= i < |front| ==> front[i] == fs[i];
      }
      r
  }

  lemma {:induction false} DictDistinct(fs: seq<Field>)
    ensures DistinctKeys(Dict(fs))
  {
    if fs != [] {
      DictDistinct(fs[..|fs| - 1]);
      PutDistinct(Dict(fs[..|fs| - 1]), fs[|fs| - 1]);
    }
  }

  lemma DistinctSnoc(fs: seq<Field>)
    requires fs != []
    ensures DistinctKeys(fs) <==> !HasKey(fs[..|fs| - 1], fs[|fs| - 1].key) && DistinctKeys(fs[..|fs| - 1])
  {
    var front, last := fs[..|fs| - 1], fs[|fs| - 1];
    if !HasKey(front, last.key) && DistinctKeys(front) {
      forall i, j | 0 <= i < j < |fs|
        ensures fs[i].key != fs[j].key
      {
        assert front[i] == fs[i];
      }
    }
  }

  /** Building a dictionary drops nothing exactly when no key is repeated. */
  lemma {:induction false} DictKeeps(fs: seq<Field>)
    ensures DistinctKeys(fs) ==> Dict(fs) == fs
    ensures |Dict(fs)| == |fs| ==> DistinctKeys(fs)
  {
    if fs != [] {
      hide Put, DistinctKeys;
      var front, last := fs[..|fs| - 1], fs[|fs| - 1];
      DictKeeps(front);
      DistinctSnoc(fs);
      if DistinctKeys(fs) {
        PutNew(front, last);
        assert front + [last] == fs;
      }
    }
  }

  lemma LookupPut(fs: seq<Field>, f: Field, key: Text)
    ensures Lookup(Put(fs, f), key) == if key == f.key then Some(f.value) else Lookup(fs, key)
  {
    if fs != [] && fs[0].key != f.key {
      LookupPut(fs[1..], f, key);
      assert Put(fs, f)[1..] == Put(fs[1..], f);
    } else if fs != [] {
      assert Put(fs, f)[1..] == fs[1..];
    }
  }

  /** Of the fields stored under one key the last is kept. */
  lemma {:induction false} DictLast(fs: seq<Field>, i: nat)
    requires i < |fs| && forall j :: i < j < |fs| ==> fs[j].key != fs[i].key
    ensures Lookup(Dict(fs), fs[i].key) == Some(fs[i].value)
  {
    hide Put, Lookup;
    var front, last := fs[..|fs| - 1], fs[|fs| - 1];
    LookupPut(Dict(front), last, fs[i].key);
    if i < |fs| - 1 {
      assert forall j :: 0 <= j < |front| ==> front[j] == fs[j];
      DictLast(front, i);
    }
  }

  // ------------------------------------------------------------ well-formed values

  /** What Python can hold: a float is the text of one, a dictionary has no repeated key. */
  ghost predicate WellFormed(v: Value) {
    match v
    case Float(lexeme) => IsFloat(lexeme)
    case Arr(items) => forall i :: 0 <= i < |items| ==> WellFormed(items[i])
    case Obj(fs) => DistinctKeys(fs) && forall i :: 0 <= i < |fs| ==> WellFormed(fs[i].value)
    case _ => true
  }

  const NAN: Text := [78, 97, 78]
  const INFINITY: Text := [73, 110, 102, 105, 110, 105, 116, 121]
  const MINUS_INFINITY: Text := [45, 73, 110, 102, 105, 110, 105, 116, 121]

  predicate IsFloat(lexeme: Text) {
    || lexeme == NAN || lexeme == INFINITY || lexeme == MINUS_INFINITY
    || (lexeme != [] && LexNumber(lexeme) == Token(|lexeme|, false))
  }

  predicate IsHigh(c: CodePoint) {
    0xD800 <= c <= 0xDBFF
  }

  predicate IsLow(c: CodePoint) {
    0xDC00 <= c <= 0xDFFF
  }

  /** No high surrogate stands right before a low one, so nothing is left to combine. */
  predicate PairFree(t: Text) {
    forall i :: 0 <= i < |t| - 1 ==> !(IsHigh(t[i]) && IsLow(t[i + 1]))
  }

  ghost predicate AllPairFree(v: Value) {
    match v
    case Str(s) => PairFree(s)
    case Arr(items) => forall i :: 0 <= i < |items| ==> AllPairFree(items[i])
    case Obj(fs) => forall i :: 0 <= i < |fs| ==> PairFree(fs[i].key) && AllPairFree(fs[i].value)
    case _ => true
  }

  // ------------------------------------------------------------ Python's view of a value

  /** Python's `bool(v)`. A float counts by its digits. */
  predicate Truthy(v: Value) {
    match v
    case Null => false
    case Bool(b) => b
    case Int(n) => n != 0
    case Float(lexeme) => NonZero(lexeme)
    case Str(s) => s != []
    case Arr(items) => items != []
    case Obj(fs) => fs != []
  }

  predicate NonZero(lexeme: Text) {
    lexeme != [] && lexeme[0] != 101 && lexeme[0] != 69 &&
    (49 <= lexeme[0] <= 57 || lexeme[0] == NAN[0] || lexeme[0] == INFINITY[0] || NonZero(lexeme[1..]))
  }

  /** `d.get(key)` as a value: a missing key reads as null. */
  function GetOrNull(v: Value, key: Text): Value {
    match Get(v, key)
    case Some(x) => x
    case None => Null
  }

  /** Only a dictionary has anything under a key. */
  lemma OnlyDicts(v: Value, key: Text)
    ensures GetOrNull(v, key) != Null ==> v.Obj?
  {
  }

  // ------------------------------------------------------------ equality up to key order

  /** Python's `==` on dictionaries: the same keys with the same values, in any order. */
  ghost predicate Same(a: Value, b: Value)
    decreases a
  {
    match a
    case Arr(items) =>
      b.Arr? && |items| == |b.items| && forall i :: 0 <= i < |items| ==> Same(items[i], b.items[i])
    case Obj(fs) =>
      b.Obj? && |fs| == |b.fields| &&
      forall i :: 0 <= i < |fs| ==> SameField(fs[i], b.fields)
    case _ => a == b
  }

  ghost predicate SameField(f: Field, gs: seq<Field>)
    decreases f
  {
    exists j :: 0 <= j < |gs| && gs[j].key == f.key && Same(f.value, gs[j].value)
  }

  /** The value with every dictionary, at every depth, in key order: `sort_keys=True`. */
  function Sorted(v: Value): Value {
    match v
    case Arr(items) => Arr(seq(|items|, i requires 0 <= i < |items| => Sorted(items[i])))
    case Obj(fs) => Obj(SortFields(seq(|fs|, i requires 0 <= i < |fs| => Field(fs[i].key, Sorted(fs[i].value)))))
    case _ => v
  }

  function Insert(f: Field, fs: seq<Field>): (r: seq<Field>)
    ensures |r| == |fs| + 1
    ensures forall g :: g in r <==> g == f || g in fs
  {
    if fs == [] || !Less(fs[0].key, f.key) then [f] + fs
    else
      assert fs == [fs[0]] + fs[1..];
      [fs[0]] + Insert(f, fs[1..])
  }

  function SortFields(fs: seq<Field>): (r: seq<Field>)
    ensures |r| == |fs|
    ensures forall g :: g in r <==> g in fs
  {
    if fs == [] then []
    else
      assert fs == [fs[0]] + fs[1..];
      Insert(fs[0], SortFields(fs[1..]))
  }
}
