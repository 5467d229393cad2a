/** Exactly when two values print alike: once every pair of surrogates in their texts is
    combined, keys included and no key merged with another, they are one value. */
module JsonTidy {
  import opened Texts
  import opened JsonNumber
  import opened Json
  import opened JsonText
  import opened JsonRoundTrip
  import opened JsonCanonical

  /** The value with surrogate pairs combined in place. */
  function Tidy(v: Value): Value {
    match v
    case Str(s) => Str(Combine(s))
    case Arr(items) => Arr(seq(|items|, i requires 0 <= i < |items| => Tidy(items[i])))
    case Obj(fs) => Obj(seq(|fs|, i requires 0 <= i < |fs| => Field(Combine(fs[i].key), Tidy(fs[i].value))))
    case _ => v
  }

  function TidyItems(items: seq<Value>): (r: seq<Value>)
    ensures |r| == |items| && forall i :: 0 <= i < |items| ==> r[i] == Tidy(items[i])
  {
    seq(|items|, i requires 0 <= i < |items| => Tidy(items[i]))
  }

  function TidyField(f: Field): Field {
    Field(Combine(f.key), Tidy(f.value))
  }

  function TidyFields(fs: seq<Field>): (r: seq<Field>)
    ensures |r| == |fs| && forall i :: 0 <= i < |fs| ==> r[i] == TidyField(fs[i])
  {
    seq(|fs|, i requires 0 <= i < |fs| => TidyField(fs[i]))
  }

  lemma TidyArr(items: seq<Value>)
    ensures Tidy(Arr(items)) == Arr(TidyItems(items))
  {
    assert seq(|items|, i requires 0 <= i < |items| => Tidy(items[i])) == TidyItems(items);
  }

  lemma TidyObj(fs: seq<Field>)
    ensures Tidy(Obj(fs)) == Obj(TidyFields(fs))
  {
    assert seq(|fs|, i requires 0 <= i < |fs| => Field(Combine(fs[i].key), Tidy(fs[i].value))) == TidyFields(fs);
  }

  // ------------------------------------------------------------ combining does not show

  lemma {:induction false} EscapeCombine(s: Text)
    ensures EscapeText(Combine(s)) == EscapeText(s)
  {
    hide EscapeChar, EscapeText, Merge;
    if s == [] {
      assert Combine(s) == s;
    } else if |s| >= 2 && IsHigh(s[0]) && IsLow(s[1]) {
      assert s == [s[0]] + ([s[1]] + s[2..]);
      EscapeCombine(s[2..]);
      EscapeMerged(s[0], s[1]);
      EscapeCons(s[1], s[2..]);
      EscapeCons(s[0], [s[1]] + s[2..]);
      EscapeCons(Merge(s[0], s[1]), Combine(s[2..]));
    } else {
      assert s == [s[0]] + s[1..];
      EscapeCombine(s[1..]);
      EscapeCons(s[0], s[1..]);
      EscapeCons(s[0], Combine(s[1..]));
    }
  }

  lemma EscapeCons(c: CodePoint, s: Text)
    ensures EscapeText([c] + s) == EscapeChar(c) + EscapeText(s)
  {
    hide EscapeChar;
    assert ([c] + s)[1..] == s;
  }

  lemma EscapeMerged(high: CodePoint, low: CodePoint)
    requires IsHigh(high) && IsLow(low)
    ensures EscapeChar(Merge(high, low)) == EscapeChar(high) + EscapeChar(low)
  {
    var c := Merge(high, low);
    assert HighOf(c) == high && LowOf(c) == low;
  }

  lemma {:induction false} PrintTidy(v: Value, gap: Text)
    ensures Print(Tidy(v), gap) == Print(v, gap)
    decreases v, 0
  {
    match v
    case Str(s) => EscapeCombine(s);
    case Arr(items) =>
      TidyArr(items);
      PrintTidyItems(items, gap);
    case Obj(fs) =>
      TidyObj(fs);
      PrintTidyFields(fs, gap);
    case _ =>
  }

  lemma {:induction false} PrintTidyItems(items: seq<Value>, gap: Text)
    ensures PrintItems(TidyItems(items), gap) == PrintItems(items, gap)
    decreases items
  {
    hide Print, Tidy;
    if items != [] {
      PrintTidy(items[0], gap);
      PrintTidyItems(items[1..], gap);
      assert TidyItems(items)[1..] == TidyItems(items[1..]);
    }
  }

  lemma {:induction false} PrintTidyFields(fs: seq<Field>, gap: Text)
    ensures PrintFields(TidyFields(fs), gap) == PrintFields(fs, gap)
    decreases fs
  {
    hide Print, Tidy, EscapeText, Combine;
    if fs != [] {
      PrintTidy(fs[0].value, gap);
      EscapeCombine(fs[0].key);
      PrintTidyFields(fs[1..], gap);
      assert TidyFields(fs)[1..] == TidyFields(fs[1..]);
    }
  }

  // ------------------------------------------------------------ nothing else is lost

  lemma SamePrefix(p: Text, x: Text, y: Text)
    requires p + x == p + y
    ensures x == y
  {
    assert (p + x)[|p|..] == x && (p + y)[|p|..] == y;
  }

  /** A print, whatever follows it, decides the value up to the pairs, and where it ends. */
  lemma {:induction false} PrintDecides(a: Value, b: Value, gap: Text, x: Text, y: Text)
    requires WellFormed(a) && WellFormed(b) && AllJsonSpace(gap) && Ends(x) && Ends(y)
    requires Print(a, gap) + x == Print(b, gap) + y
    ensures Tidy(a) == Tidy(b) && x == y
    decreases a, 0
  {
    hide Print, Joined, Tidy, Combine;
    ValueRoundTrip(a, gap, x);
    ValueRoundTrip(b, gap, y);
    SameKind(a, b);
    match a
    case Arr(items) =>
      ArrayBody(items, gap, x);
      ArrayBody(b.items, gap, y);
      SamePrefix([LBRACKET], PrintItems(items, gap) + [RBRACKET] + x, PrintItems(b.items, gap) + [RBRACKET] + y);
      if items != [] {
        ItemsDecide(items, b.items, gap, x, y);
      } else {
        assert b.items == items;
      }
      TidyArr(items);
      TidyArr(b.items);
    case Obj(fs) =>
      ObjectBody(fs, gap, x);
      ObjectBody(b.fields, gap, y);
      SamePrefix([LBRACE], PrintFields(fs, gap) + [RBRACE] + x, PrintFields(b.fields, gap) + [RBRACE] + y);
      EmptyTogether(fs, b.fields, gap, x, y);
      if fs != [] {
        FieldsDecide(fs, b.fields, gap, x, y);
      }
      TidyObj(fs);
      TidyObj(b.fields);
    case _ =>
  }

  lemma SameKind(a: Value, b: Value)
    requires Joined(a) == Joined(b)
    ensures a.Arr? ==> b.Arr? && |a.items| == |b.items|
    ensures a.Obj? ==> b.Obj?
    ensures !a.Arr? && !a.Obj? ==> Tidy(a) == Tidy(b)
  {
    hide Combine;
  }

  lemma ArrayBody(items: seq<Value>, gap: Text, x: Text)
    ensures Print(Arr(items), gap) + x == [LBRACKET] + (PrintItems(items, gap) + [RBRACKET] + x)
  {
    hide PrintItems;
  }

  lemma ObjectBody(fs: seq<Field>, gap: Text, x: Text)
    ensures Print(Obj(fs), gap) + x == [LBRACE] + (PrintFields(fs, gap) + [RBRACE] + x)
  {
    hide PrintFields;
  }

  lemma EmptyTogether(fs: seq<Field>, gs: seq<Field>, gap: Text, x: Text, y: Text)
    requires PrintFields(fs, gap) + [RBRACE] + x == PrintFields(gs, gap) + [RBRACE] + y
    ensures fs == [] <==> gs == []
  {
    hide PrintField;
    if fs != [] {
      FieldsStart(fs, gap);
      assert (PrintFields(fs, gap) + [RBRACE] + x)[0] == QUOTE;
    }
    if gs != [] {
      FieldsStart(gs, gap);
      assert (PrintFields(gs, gap) + [RBRACE] + y)[0] == QUOTE;
    }
  }

  /** What follows the first of several items. */
  function AfterItem(vs: seq<Value>, gap: Text, x: Text): Text
    requires vs != []
  {
    if |vs| == 1 then [RBRACKET] + x else [COMMA] + (gap + (PrintItems(vs[1..], gap) + [RBRACKET] + x))
  }

  lemma ItemThen(vs: seq<Value>, gap: Text, x: Text)
    requires vs != []
    ensures PrintItems(vs, gap) + [RBRACKET] + x == Print(vs[0], gap) + AfterItem(vs, gap, x)
    ensures Ends(AfterItem(vs, gap, x))
  {
    hide Print;
    if |vs| > 1 {
      ThenMore(Print(vs[0], gap), gap, PrintItems(vs[1..], gap), [RBRACKET], x);
    }
  }

  lemma ThenMore(first: Text, gap: Text, more: Text, end: Text, x: Text)
    ensures first + [COMMA] + gap + more + end + x == first + ([COMMA] + (gap + (more + end + x)))
  {
  }

  lemma {:induction false} ItemsDecide(vs: seq<Value>, ws: seq<Value>, gap: Text, x: Text, y: Text)
    requires vs != [] && |vs| == |ws| && AllJsonSpace(gap)
    requires forall i :: 0 <= i < |vs| ==> WellFormed(vs[i]) && WellFormed(ws[i])
    requires PrintItems(vs, gap) + [RBRACKET] + x == PrintItems(ws, gap) + [RBRACKET] + y
    ensures TidyItems(vs) == TidyItems(ws)
    decreases vs
  {
    hide Print, Tidy, PrintItems;
    ItemThen(vs, gap, x);
    ItemThen(ws, gap, y);
    PrintDecides(vs[0], ws[0], gap, AfterItem(vs, gap, x), AfterItem(ws, gap, y));
    if |vs| > 1 {
      AfterSame(gap, PrintItems(vs[1..], gap) + [RBRACKET] + x, PrintItems(ws[1..], gap) + [RBRACKET] + y);
      ItemsDecide(vs[1..], ws[1..], gap, x, y);
    }
    TidyItemsCons(vs);
    TidyItemsCons(ws);
  }

  lemma AfterSame(gap: Text, more: Text, less: Text)
    ensures [COMMA] + (gap + more) == [COMMA] + (gap + less) ==> more == less
  {
    if [COMMA] + (gap + more) == [COMMA] + (gap + less) {
      SamePrefix([COMMA], gap + more, gap + less);
      SamePrefix(gap, more, less);
    }
  }

  lemma TidyItemsCons(vs: seq<Value>)
    requires vs != []
    ensures TidyItems(vs) == [Tidy(vs[0])] + TidyItems(vs[1..])
    ensures |vs| == 1 ==> TidyItems(vs) == [Tidy(vs[0])]
  {
    hide Tidy;
  }

  lemma TidyFieldsCons(fs: seq<Field>)
    requires fs != []
    ensures TidyFields(fs) == [TidyField(fs[0])] + TidyFields(fs[1..])
    ensures |fs| == 1 ==> TidyFields(fs) == [TidyField(fs[0])]
  {
    hide TidyField;
  }

  lemma {:induction false} FieldDecides(f: Field, g: Field, gap: Text, x: Text, y: Text)
    requires WellFormed(f.value) && WellFormed(g.value) && AllJsonSpace(gap) && Ends(x) && Ends(y)
    requires PrintField(f, gap) + x == PrintField(g, gap) + y
    ensures TidyField(f) == TidyField(g) && x == y
    decreases f
  {
    hide Print, Joined, Tidy, EscapeText, Combine, ParseField;
    FieldRoundTrip(f, gap, x);
    FieldRoundTrip(g, gap, y);
    EscapeCombine(f.key);
    EscapeCombine(g.key);
    var head := PrintString(f.key) + [COLON] + gap;
    assert PrintField(f, gap) + x == head + (Print(f.value, gap) + x);
    assert PrintField(g, gap) + y == head + (Print(g.value, gap) + y);
    SamePrefix(head, Print(f.value, gap) + x, Print(g.value, gap) + y);
    PrintDecides(f.value, g.value, gap, x, y);
  }

  /** What follows the first of several fields. */
  function AfterField(fs: seq<Field>, gap: Text, x: Text): Text
    requires fs != []
  {
    if |fs| == 1 then [RBRACE] + x else [COMMA] + (gap + (PrintFields(fs[1..], gap) + [RBRACE] + x))
  }

  lemma FieldThen(fs: seq<Field>, gap: Text, x: Text)
    requires fs != []
    ensures PrintFields(fs, gap) + [RBRACE] + x == PrintField(fs[0], gap) + AfterField(fs, gap, x)
    ensures Ends(AfterField(fs, gap, x))
  {
    hide PrintField;
    if |fs| > 1 {
      ThenMore(PrintField(fs[0], gap), gap, PrintFields(fs[1..], gap), [RBRACE], x);
    }
  }

  lemma {:induction false} FieldsDecide(fs: seq<Field>, gs: seq<Field>, gap: Text, x: Text, y: Text)
    requires fs != [] && gs != [] && AllJsonSpace(gap)
    requires forall i :: 0 <= i < |fs| ==> WellFormed(fs[i].value)
    requires forall i :: 0 <= i < |gs| ==> WellFormed(gs[i].value)
    requires PrintFields(fs, gap) + [RBRACE] + x == PrintFields(gs, gap) + [RBRACE] + y
    ensures TidyFields(fs) == TidyFields(gs)
    decreases fs
  {
    hide PrintField, TidyField, PrintFields;
    FieldThen(fs, gap, x);
    FieldThen(gs, gap, y);
    FieldDecides(fs[0], gs[0], gap, AfterField(fs, gap, x), AfterField(gs, gap, y));
    assert AfterField(fs, gap, x)[0] == AfterField(gs, gap, y)[0];
    if |fs| > 1 {
      AfterSame(gap, PrintFields(fs[1..], gap) + [RBRACE] + x, PrintFields(gs[1..], gap) + [RBRACE] + y);
      FieldsDecide(fs[1..], gs[1..], gap, x, y);
    }
    TidyFieldsCons(fs);
    TidyFieldsCons(gs);
  }

  /** Two values have one canonical text exactly when they agree, keys in order, once every
      pair of surrogates is combined in place. */
  lemma CanonicalExact(a: Value, b: Value, gap: Text)
    requires WellFormed(a) && WellFormed(b) && AllJsonSpace(gap)
    ensures Dumps(a, gap) == Dumps(b, gap) <==> Tidy(Sorted(a)) == Tidy(Sorted(b))
  {
    hide Print, Sorted, Tidy;
    PrintTidy(Sorted(a), gap);
    PrintTidy(Sorted(b), gap);
    if Dumps(a, gap) == Dumps(b, gap) {
      SortedWellFormed(a);
      SortedWellFormed(b);
      PrintDecides(Sorted(a), Sorted(b), gap, [], []);
    }
  }
}
