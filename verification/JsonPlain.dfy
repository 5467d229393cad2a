/** Values whose dictionary keys are plain ASCII: combining surrogates in their texts changes
    neither their order nor what is printed of them. */
module JsonPlain {
  import opened Texts
  import opened Json
  import opened JsonOrder
  import opened JsonText
  import opened JsonRoundTrip
  import opened JsonCanonical
  import opened JsonTidy

  ghost predicate PlainKeys(v: Value) {
    match v
    case Arr(items) => forall i :: 0 <= i < |items| ==> PlainKeys(items[i])
    case Obj(fs) => DistinctKeys(fs) && forall i :: 0 <= i < |fs| ==> Printable(fs[i].key) && PlainKeys(fs[i].value)
    case _ => true
  }

  lemma PlainCombine(t: Text)
    requires Printable(t)
    ensures Combine(t) == t
  {
    CombineKeeps(t);
  }

  lemma JoinedPlain(fs: seq<Field>)
    requires DistinctKeys(fs) && forall i :: 0 <= i < |fs| ==> Printable(fs[i].key)
    ensures Joined(Obj(fs)) == Obj(JoinedFields(fs))
    ensures forall i :: 0 <= i < |fs| ==> JoinedFields(fs)[i] == Field(fs[i].key, Joined(fs[i].value))
    ensures DistinctKeys(JoinedFields(fs))
  {
    hide Joined, Combine, Dict, Printable;
    JoinedObj(fs);
    forall i | 0 <= i < |fs|
      ensures JoinedFields(fs)[i].key == fs[i].key
    {
      PlainCombine(fs[i].key);
    }
    DictKeeps(JoinedFields(fs));
  }

  // ------------------------------------------------------------ printing

  /** Plain keys never collide, so nothing is merged. */
  lemma {:induction false} JoinedIsTidy(v: Value)
    requires PlainKeys(v)
    ensures Joined(v) == Tidy(v)
  {
    hide Dict;
    match v
    case Arr(items) =>
      forall i | 0 <= i < |items|
        ensures Joined(items[i]) == Tidy(items[i])
      {
        JoinedIsTidy(items[i]);
      }
      JoinedArr(items);
      TidyArr(items);
      assert JoinedItems(items) == TidyItems(items);
    case Obj(fs) =>
      forall i | 0 <= i < |fs|
        ensures Joined(fs[i].value) == Tidy(fs[i].value)
      {
        JoinedIsTidy(fs[i].value);
      }
      JoinedFieldsTidy(fs);
    case _ =>
  }

  lemma JoinedFieldsTidy(fs: seq<Field>)
    requires DistinctKeys(fs) && forall i :: 0 <= i < |fs| ==> Printable(fs[i].key)
    requires forall i :: 0 <= i < |fs| ==> Joined(fs[i].value) == Tidy(fs[i].value)
    ensures Joined(Obj(fs)) == Tidy(Obj(fs))
  {
    hide Joined, Tidy, Combine, Printable;
    JoinedPlain(fs);
    TidyObj(fs);
    assert JoinedFields(fs) == TidyFields(fs);
  }

  // ------------------------------------------------------------ sorting

  lemma {:induction false} SortedPlain(v: Value)
    requires PlainKeys(v)
    ensures PlainKeys(Sorted(v))
  {
    match v
    case Arr(items) =>
      SortedArr(items);
      forall i | 0 <= i < |items|
        ensures PlainKeys(Sorted(items[i]))
      {
        SortedPlain(items[i]);
      }
    case Obj(fs) =>
      forall i | 0 <= i < |fs|
        ensures PlainKeys(Sorted(fs[i].value))
      {
        SortedPlain(fs[i].value);
      }
      SortedFieldsPlain(fs);
    case _ =>
  }

  lemma SortedFieldsPlain(fs: seq<Field>)
    requires DistinctKeys(fs)
    requires forall i :: 0 <= i < |fs| ==> Printable(fs[i].key) && PlainKeys(Sorted(fs[i].value))
    ensures PlainKeys(Sorted(Obj(fs)))
  {
    hide Sorted, Printable;
    SortedObjAscends(fs);
    var gs := Sorted(Obj(fs)).fields;
    AscendDistinct(gs);
    forall j | 0 <= j < |gs|
      ensures Printable(gs[j].key) && PlainKeys(gs[j].value)
    {
      assert gs[j] in gs;
    }
  }

  lemma {:induction false} SortedJoined(v: Value)
    requires PlainKeys(v)
    ensures Sorted(Joined(v)) == Joined(Sorted(v))
  {
    match v
    case Arr(items) =>
      JoinedArr(items);
      SortedArr(items);
      SortedArr(JoinedItems(items));
      JoinedArr(Sorted(v).items);
      forall i | 0 <= i < |items|
        ensures Sorted(Joined(items[i])) == Joined(Sorted(items[i]))
      {
        SortedJoined(items[i]);
      }
      assert Sorted(Joined(v)).items == Joined(Sorted(v)).items;
    case Obj(fs) =>
      forall i | 0 <= i < |fs|
        ensures Sorted(Joined(fs[i].value)) == Joined(Sorted(fs[i].value))
        ensures PlainKeys(Sorted(fs[i].value))
      {
        SortedJoined(fs[i].value);
        SortedPlain(fs[i].value);
      }
      SortedJoinedFields(fs);
    case _ =>
  }

  lemma SortedJoinedFields(fs: seq<Field>)
    requires DistinctKeys(fs) && forall i :: 0 <= i < |fs| ==> Printable(fs[i].key)
    requires forall i :: 0 <= i < |fs| ==> PlainKeys(Sorted(fs[i].value))
    requires forall i :: 0 <= i < |fs| ==> Sorted(Joined(fs[i].value)) == Joined(Sorted(fs[i].value))
    ensures Sorted(Joined(Obj(fs))) == Joined(Sorted(Obj(fs)))
  {
    hide Sorted, Joined, Printable, PlainKeys;
    JoinedPlain(fs);
    var js := JoinedFields(fs);
    SortedObjAscends(js);
    SortedObjAscends(fs);
    var gs := Sorted(Obj(fs)).fields;
    AscendDistinct(gs);
    forall j | 0 <= j < |gs|
      ensures Printable(gs[j].key)
    {
      assert gs[j] in gs;
    }
    JoinedPlain(gs);
    SortedJoinedMembers(fs, js, gs);
    AscendUnique(Sorted(Obj(js)).fields, JoinedFields(gs));
  }

  lemma SortedJoinedMembers(fs: seq<Field>, js: seq<Field>, gs: seq<Field>)
    requires |js| == |fs| && forall i :: 0 <= i < |fs| ==> js[i] == Field(fs[i].key, Joined(fs[i].value))
    requires forall i :: 0 <= i < |fs| ==> Sorted(Joined(fs[i].value)) == Joined(Sorted(fs[i].value))
    requires DistinctKeys(js) && KeysAscend(gs)
    requires forall g :: g in gs <==> exists i :: 0 <= i < |fs| && g == SortedField(fs[i])
    requires forall j :: 0 <= j < |gs| ==> JoinedFields(gs)[j] == Field(gs[j].key, Joined(gs[j].value))
    ensures KeysAscend(JoinedFields(gs))
    ensures Sorted(Obj(js)).Obj?
    ensures forall g :: g in Sorted(Obj(js)).fields <==> g in JoinedFields(gs)
  {
    hide Sorted, Joined, Combine;
    SortedObjAscends(js);
    var a, b := Sorted(Obj(js)).fields, JoinedFields(gs);
    forall g | g in a
      ensures g in b
    {
      var i :| 0 <= i < |js| && g == SortedField(js[i]);
      assert SortedField(fs[i]) in gs;
      var j :| 0 <= j < |gs| && gs[j] == SortedField(fs[i]);
      assert b[j] == g;
    }
    forall g | g in b
      ensures g in a
    {
      var j :| 0 <= j < |gs| && b[j] == g;
      assert gs[j] in gs;
      var i :| 0 <= i < |fs| && gs[j] == SortedField(fs[i]);
      assert g == SortedField(js[i]);
    }
  }

  /** The text a dictionary prints to does not show whether its surrogates were combined. */
  lemma DumpsJoined(v: Value, gap: Text)
    requires PlainKeys(v)
    ensures Dumps(Joined(v), gap) == Dumps(v, gap)
  {
    SortedJoined(v);
    SortedPlain(v);
    JoinedIsTidy(Sorted(v));
    PrintTidy(Sorted(v), gap);
  }
}
