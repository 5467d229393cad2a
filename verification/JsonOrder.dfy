/** Key order: sorting is a normal form for equality up to the order of keys. */
module JsonOrder {
  import opened Texts
  import opened Json

  predicate KeysAscend(fs: seq<Field>) {
    forall i, j :: 0 <= i < j < |fs| ==> Less(fs[i].key, fs[j].key)
  }

  lemma AscendDistinct(fs: seq<Field>)
    requires KeysAscend(fs)
    ensures DistinctKeys(fs)
  {
    forall i, j | 0 <= i < j < |fs|
      ensures fs[i].key != fs[j].key
    {
      LessTrichotomy(fs[i].key, fs[j].key);
    }
  }

  lemma {:induction false} InsertAscends(f: Field, fs: seq<Field>)
    requires KeysAscend(fs)
    requires forall g :: g in fs ==> g.key != f.key
    ensures KeysAscend(Insert(f, fs))
  {
    var r := Insert(f, fs);
    if fs == [] {
    } else if Less(fs[0].key, f.key) {
      InsertAscends(f, fs[1..]);
      var tail := Insert(f, fs[1..]);
      forall j | 0 < j < |r|
        ensures Less(r[0].key, r[j].key)
      {
        assert r[j] == tail[j - 1] && tail[j - 1] in tail;
        if r[j] != f {
          assert r[j] in fs[1..];
        }
      }
      forall i, j | 0 < i < j < |r|
        ensures Less(r[i].key, r[j].key)
      {
        assert r[i] == tail[i - 1] && r[j] == tail[j - 1];
      }
    } else {
      forall j | 0 <= j < |fs|
        ensures Less(f.key, fs[j].key)
      {
        assert fs[0] in fs;
        LessTrichotomy(f.key, fs[0].key);
        if j > 0 {
          LessTransitive(f.key, fs[0].key, fs[j].key);
        }
      }
    }
  }

  lemma {:induction false} SortAscends(fs: seq<Field>)
    requires DistinctKeys(fs)
    ensures KeysAscend(SortFields(fs))
  {
    if fs != [] {
      SortAscends(fs[1..]);
      InsertAscends(fs[0], SortFields(fs[1..]));
    }
  }

  /** Two ascending lists of the same fields are the same list. */
  lemma {:induction false} AscendUnique(a: seq<Field>, b: seq<Field>)
    requires KeysAscend(a) && KeysAscend(b) && |a| == |b|
    requires forall g :: g in a <==> g in b
    ensures a == b
  {
    if a != [] {
      assert a[0] in b;
      var j :| 0 <= j < |b| && b[j] == a[0];
      assert b[0] in a;
      var i :| 0 <= i < |a| && a[i] == b[0];
      LessTrichotomy(a[0].key, b[0].key);
      assert a[0] == b[0];
      forall g
        ensures g in a[1..] <==> g in b[1..]
      {
        TailMember(a, g);
        TailMember(b, g);
      }
      AscendUnique(a[1..], b[1..]);
      assert a == [a[0]] + a[1..] && b == [b[0]] + b[1..];
    }
  }

  lemma TailMember(a: seq<Field>, g: Field)
    requires a != [] && KeysAscend(a)
    ensures g in a[1..] <==> g in a && g != a[0]
  {
    if g in a[1..] {
      var i :| 0 <= i < |a[1..]| && a[1..][i] == g;
      LessTrichotomy(a[0].key, a[i + 1].key);
    }
  }

  function SortedField(f: Field): Field {
    Field(f.key, Sorted(f.value))
  }

  function SortedValues(fs: seq<Field>): (r: seq<Field>)
    ensures |r| == |fs| && forall i :: 0 <= i < |fs| ==> r[i] == SortedField(fs[i])
  {
    seq(|fs|, i requires 0 <= i < |fs| => SortedField(fs[i]))
  }

  lemma SortedObj(fs: seq<Field>)
    ensures Sorted(Obj(fs)) == Obj(SortFields(SortedValues(fs)))
  {
    assert seq(|fs|, i requires 0 <= i < |fs| => Field(fs[i].key, Sorted(fs[i].value))) == SortedValues(fs);
  }

  lemma SortedObjAscends(fs: seq<Field>)
    requires DistinctKeys(fs)
    ensures Sorted(Obj(fs)).Obj? && |Sorted(Obj(fs)).fields| == |fs|
    ensures KeysAscend(Sorted(Obj(fs)).fields)
    ensures forall g :: g in Sorted(Obj(fs)).fields <==> exists i :: 0 <= i < |fs| && g == SortedField(fs[i])
  {
    SortedObj(fs);
    SortAscends(SortedValues(fs));
    forall g
      ensures g in SortedValues(fs) <==> exists i :: 0 <= i < |fs| && g == SortedField(fs[i])
    {
      if i :| 0 <= i < |fs| && g == SortedField(fs[i]) {
        assert SortedValues(fs)[i] == g;
      }
    }
  }

  /** Equal up to key order exactly when equal after sorting. */
  lemma {:induction false} SortedDecidesSame(a: Value, b: Value)
    requires WellFormed(a) && WellFormed(b)
    ensures Same(a, b) <==> Sorted(a) == Sorted(b)
    decreases a
  {
    match a
    case Arr(items) =>
      if b.Arr? {
        SortedArr(items);
        SortedArr(b.items);
      }
      if b.Arr? && |items| == |b.items| {
        forall i | 0 <= i < |items|
          ensures Same(items[i], b.items[i]) <==> Sorted(items[i]) == Sorted(b.items[i])
        {
          SortedDecidesSame(items[i], b.items[i]);
        }
      }
    case Obj(fs) =>
      if b.Obj? {
        SortedObjAscends(fs);
        SortedObjAscends(b.fields);
      }
      if b.Obj? && |fs| == |b.fields| {
        forall i, j | 0 <= i < |fs| && 0 <= j < |b.fields|
          ensures Same(fs[i].value, b.fields[j].value) <==> Sorted(fs[i].value) == Sorted(b.fields[j].value)
        {
          SortedDecidesSame(fs[i].value, b.fields[j].value);
        }
        SameObjects(fs, b.fields);
      }
    case _ =>
  }

  lemma SortedArr(items: seq<Value>)
    ensures Sorted(Arr(items)).Arr? && |Sorted(Arr(items)).items| == |items|
    ensures forall i :: 0 <= i < |items| ==> Sorted(Arr(items)).items[i] == Sorted(items[i])
  {
  }

  ghost predicate FieldsAgree(fs: seq<Field>, gs: seq<Field>) {
    forall i, j :: 0 <= i < |fs| && 0 <= j < |gs| ==>
      (Same(fs[i].value, gs[j].value) <==> Sorted(fs[i].value) == Sorted(gs[j].value))
  }

  lemma SameObjects(fs: seq<Field>, gs: seq<Field>)
    requires DistinctKeys(fs) && DistinctKeys(gs) && |fs| == |gs| && FieldsAgree(fs, gs)
    ensures Same(Obj(fs), Obj(gs)) <==> Sorted(Obj(fs)) == Sorted(Obj(gs))
  {
    SortedObjAscends(fs);
    SortedObjAscends(gs);
    if Same(Obj(fs), Obj(gs)) {
      SameFieldsSameSorts(fs, gs);
    }
    if Sorted(Obj(fs)) == Sorted(Obj(gs)) {
      forall i | 0 <= i < |fs|
        ensures SameField(fs[i], gs)
      {
        assert SortedField(fs[i]) in Sorted(Obj(gs)).fields;
        var j :| 0 <= j < |gs| && SortedField(fs[i]) == SortedField(gs[j]);
        assert Same(fs[i].value, gs[j].value);
      }
    }
  }

  lemma SameFieldsSameSorts(fs: seq<Field>, gs: seq<Field>)
    requires DistinctKeys(fs) && DistinctKeys(gs) && |fs| == |gs| && FieldsAgree(fs, gs)
    requires forall i :: 0 <= i < |fs| ==> SameField(fs[i], gs)
    ensures Sorted(Obj(fs)) == Sorted(Obj(gs))
  {
    SortedObjAscends(fs);
    SortedObjAscends(gs);
    var a, b := Sorted(Obj(fs)).fields, Sorted(Obj(gs)).fields;
    forall g | g in a
      ensures g in b
    {
      var i :| 0 <= i < |fs| && g == SortedField(fs[i]);
      var j :| 0 <= j < |gs| && gs[j].key == fs[i].key && Same(fs[i].value, gs[j].value);
      assert g == SortedField(gs[j]);
    }
    SubsetSameSize(a, b);
    AscendUnique(a, b);
  }

  /** Distinct fields of one list, all found in another no longer list, are all of it. */
  lemma SubsetSameSize(a: seq<Field>, b: seq<Field>)
    requires KeysAscend(a) && KeysAscend(b) && |a| == |b|
    requires forall g :: g in a ==> g in b
    ensures forall g :: g in b ==> g in a
  {
    AscendCardinality(a);
    AscendCardinality(b);
    var sa, sb := set g | g in a, set g | g in b;
    assert sa <= sb;
    assert sb == sa + (sb - sa);
    assert |sb - sa| == 0;
    assert forall g :: g in b ==> g in sb;
  }

  lemma {:induction false} AscendCardinality(a: seq<Field>)
    requires KeysAscend(a)
    ensures |set g | g in a| == |a|
  {
    if a != [] {
      AscendCardinality(a[1..]);
      var tail := set g | g in a[1..];
      TailMember(a, a[0]);
      assert (set g | g in a) == tail + {a[0]};
    }
  }

  /** Sorting is a normal form: sorting again changes nothing. */
  lemma {:induction false} SortedTwice(v: Value)
    requires WellFormed(v)
    ensures Sorted(Sorted(v)) == Sorted(v)
  {
    match v
    case Arr(items) =>
      SortedArr(items);
      SortedArr(Sorted(v).items);
      forall i | 0 <= i < |items|
        ensures Sorted(Sorted(items[i])) == Sorted(items[i])
      {
        SortedTwice(items[i]);
      }
      assert Sorted(Sorted(v)).items == Sorted(v).items;
    case Obj(fs) =>
      forall i | 0 <= i < |fs|
        ensures Sorted(Sorted(fs[i].value)) == Sorted(fs[i].value)
      {
        SortedTwice(fs[i].value);
      }
      SortedObjTwice(fs);
    case _ =>
  }

  lemma SortedObjTwice(fs: seq<Field>)
    requires DistinctKeys(fs)
    requires forall i :: 0 <= i < |fs| ==> Sorted(Sorted(fs[i].value)) == Sorted(fs[i].value)
    ensures Sorted(Sorted(Obj(fs))) == Sorted(Obj(fs))
  {
    hide Sorted;
    SortedObjAscends(fs);
    var gs := Sorted(Obj(fs)).fields;
    forall j | 0 <= j < |gs|
      ensures SortedField(gs[j]) == gs[j]
    {
      assert gs[j] in gs;
    }
    assert SortedValues(gs) == gs;
    SortedObj(gs);
    AscendDistinct(gs);
    SortAscends(gs);
    AscendUnique(SortFields(gs), gs);
  }

  // ------------------------------------------------------------ Python equality

  function Numeric(v: Value): Value {
    match v
    case Bool(b) => Int(if b then 1 else 0)
    case Arr(items) => Arr(seq(|items|, i requires 0 <= i < |items| => Numeric(items[i])))
    case Obj(fs) => Obj(seq(|fs|, i requires 0 <= i < |fs| => Field(fs[i].key, Numeric(fs[i].value))))
    case _ => v
  }

  /** Python's `==`: True is 1, and key order does not matter. */
  predicate Equal(a: Value, b: Value) {
    Sorted(Numeric(a)) == Sorted(Numeric(b))
  }

  /** Numbers, booleans and texts: True is 1 and False is 0, and otherwise only the same value is
      equal. */
  lemma EqualExact(v: Value, n: int, b: bool, s: Text)
    ensures Equal(Int(n), v) <==> v == Int(n) || (v == Bool(true) && n == 1) || (v == Bool(false) && n == 0)
    ensures Equal(Bool(b), v) <==> v == Bool(b) || v == Int(if b then 1 else 0)
    ensures Equal(Str(s), v) <==> v == Str(s)
    ensures Equal(Null, v) <==> v == Null
  {
  }
}
