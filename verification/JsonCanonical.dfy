/** The canonical text as an identity for JSON values: when it survives a round trip, when
    two values share it, and that it is one printable line. */
module JsonCanonical {
  import opened Texts
  import opened JsonNumber
  import opened Json
  import opened JsonOrder
  import opened JsonText
  import opened JsonRoundTrip

  // ------------------------------------------------------------ surrogate pairs

  lemma {:induction false} CombineKeeps(s: Text)
    ensures Combine(s) == s <==> PairFree(s)
  {
    if s == [] {
    } else if |s| >= 2 && IsHigh(s[0]) && IsLow(s[1]) {
      assert |Combine(s)| < |s|;
    } else {
      CombineKeeps(s[1..]);
      assert s == [s[0]] + s[1..];
      if PairFree(s[1..]) {
        forall i | 0 <= i < |s| - 1
          ensures !(IsHigh(s[i]) && IsLow(s[i + 1]))
        {
          if i > 0 {
            assert s[i] == s[1..][i - 1] && s[i + 1] == s[1..][i];
          }
        }
      }
      if PairFree(s) {
        forall i | 0 <= i < |s[1..]| - 1
          ensures !(IsHigh(s[1..][i]) && IsLow(s[1..][i + 1]))
        {
          assert s[1..][i] == s[i + 1] && s[1..][i + 1] == s[i + 2];
        }
      }
    }
  }

  lemma {:induction false} JoinedKeeps(v: Value)
    requires WellFormed(v)
    ensures Joined(v) == v <==> AllPairFree(v)
  {
    match v
    case Str(s) => CombineKeeps(s);
    case Arr(items) =>
      forall i | 0 <= i < |items|
        ensures Joined(items[i]) == items[i] <==> AllPairFree(items[i])
      {
        JoinedKeeps(items[i]);
      }
      JoinedArrKeeps(items);
    case Obj(fs) =>
      forall i | 0 <= i < |fs|
        ensures Joined(fs[i].value) == fs[i].value <==> AllPairFree(fs[i].value)
      {
        JoinedKeeps(fs[i].value);
      }
      JoinedObjKeeps(fs);
    case _ =>
  }

  lemma JoinedArrKeeps(items: seq<Value>)
    requires forall i :: 0 <= i < |items| ==> (Joined(items[i]) == items[i] <==> AllPairFree(items[i]))
    ensures Joined(Arr(items)) == Arr(items) <==> AllPairFree(Arr(items))
  {
    JoinedArr(items);
    hide Joined;
    assert JoinedItems(items) == items <==> forall i :: 0 <= i < |items| ==> Joined(items[i]) == items[i];
  }

  lemma JoinedObjKeeps(fs: seq<Field>)
    requires DistinctKeys(fs)
    requires forall i :: 0 <= i < |fs| ==> (Joined(fs[i].value) == fs[i].value <==> AllPairFree(fs[i].value))
    ensures Joined(Obj(fs)) == Obj(fs) <==> AllPairFree(Obj(fs))
  {
    JoinedObj(fs);
    hide Joined, Combine, Dict;
    forall i | 0 <= i < |fs|
      ensures JoinedField(fs[i]) == fs[i] <==> PairFree(fs[i].key) && AllPairFree(fs[i].value)
    {
      CombineKeeps(fs[i].key);
    }
    assert JoinedFields(fs) == fs <==> forall i :: 0 <= i < |fs| ==> JoinedField(fs[i]) == fs[i];
    DictKeeps(JoinedFields(fs));
  }

  lemma {:induction false} SortedWellFormed(v: Value)
    requires WellFormed(v)
    ensures WellFormed(Sorted(v))
    ensures AllPairFree(Sorted(v)) <==> AllPairFree(v)
  {
    match v
    case Arr(items) =>
      SortedArr(items);
      forall i | 0 <= i < |items|
        ensures WellFormed(Sorted(items[i])) && (AllPairFree(Sorted(items[i])) <==> AllPairFree(items[i]))
      {
        SortedWellFormed(items[i]);
      }
    case Obj(fs) =>
      forall i | 0 <= i < |fs|
        ensures WellFormed(Sorted(fs[i].value)) && (AllPairFree(Sorted(fs[i].value)) <==> AllPairFree(fs[i].value))
      {
        SortedWellFormed(fs[i].value);
      }
      SortedObjWellFormed(fs);
    case _ =>
  }

  lemma SortedObjWellFormed(fs: seq<Field>)
    requires DistinctKeys(fs)
    requires forall i :: 0 <= i < |fs| ==> WellFormed(Sorted(fs[i].value))
    requires forall i :: 0 <= i < |fs| ==> (AllPairFree(Sorted(fs[i].value)) <==> AllPairFree(fs[i].value))
    ensures WellFormed(Sorted(Obj(fs)))
    ensures AllPairFree(Sorted(Obj(fs))) <==> AllPairFree(Obj(fs))
  {
    hide Sorted;
    SortedObjAscends(fs);
    var gs := Sorted(Obj(fs)).fields;
    AscendDistinct(gs);
    forall j | 0 <= j < |gs|
      ensures exists i :: 0 <= i < |fs| && gs[j] == SortedField(fs[i])
    {
      assert gs[j] in gs;
    }
    if AllPairFree(Obj(gs)) {
      forall i | 0 <= i < |fs|
        ensures PairFree(fs[i].key) && AllPairFree(fs[i].value)
      {
        assert SortedField(fs[i]) in gs;
      }
    }
  }

  // ------------------------------------------------------------ round trips

  lemma LoadsDumps(v: Value, gap: Text)
    requires WellFormed(v) && AllJsonSpace(gap)
    ensures Loads(Dumps(v, gap)) == Some(Joined(Sorted(v)))
  {
    hide ParseValue, Print, Sorted, Joined;
    SortedWellFormed(v);
    var t := Dumps(v, gap);
    ValueRoundTrip(Sorted(v), gap, []);
    assert t + [] == t;
    PrintStarts(Sorted(v), gap);
    assert SkipSpace(t) == t;
  }

  /** Reading back what was written returns the value, with its keys in order, exactly when
      no string in it holds a high surrogate right before a low one. */
  lemma RoundTripExact(v: Value, gap: Text)
    requires WellFormed(v) && AllJsonSpace(gap)
    ensures Loads(Dumps(v, gap)) == Some(Sorted(v)) <==> AllPairFree(v)
  {
    LoadsDumps(v, gap);
    SortedWellFormed(v);
    JoinedKeeps(Sorted(v));
  }

  /** Two values have one canonical text exactly when they are equal up to key order. */
  lemma CanonicalDecidesSame(a: Value, b: Value, gap: Text)
    requires WellFormed(a) && WellFormed(b) && AllPairFree(a) && AllPairFree(b) && AllJsonSpace(gap)
    ensures Dumps(a, gap) == Dumps(b, gap) <==> Same(a, b)
  {
    RoundTripExact(a, gap);
    RoundTripExact(b, gap);
    SortedDecidesSame(a, b);
  }

  /** Key order never shows in the canonical text, pair-free or not. */
  lemma OrderInvisible(a: Value, b: Value, gap: Text)
    requires WellFormed(a) && WellFormed(b) && Same(a, b)
    ensures Dumps(a, gap) == Dumps(b, gap)
  {
    SortedDecidesSame(a, b);
  }

  /** Without the pair-free condition canonical text is not injective: an astral character
      and the two surrogates that spell it print alike. */
  lemma SurrogatesCollide()
    ensures var astral, spelt := Str([0x1F600]), Str([0xD83D, 0xDE00]);
      !Same(astral, spelt) && Dumps(astral, []) == Dumps(spelt, [])
  {
    hide Hex4;
    var spelt: Text := [0xD83D, 0xDE00];
    assert spelt[1..] == [0xDE00];
    assert EscapeChar(0x1F600) == EscapeUnit(0xD83D) + EscapeUnit(0xDE00);
    SingleEscape(0x1F600);
    SingleEscape(0xDE00);
  }

  lemma SingleEscape(c: CodePoint)
    ensures EscapeText([c]) == EscapeChar(c)
  {
    hide EscapeChar;
    assert EscapeText([]) == [];
  }

  // ------------------------------------------------------------ one printable line

  predicate Printable(t: Text) {
    forall i :: 0 <= i < |t| ==> 32 <= t[i] <= 126
  }

  lemma PrintableConcat(a: Text, b: Text)
    requires Printable(a) && Printable(b)
    ensures Printable(a + b)
  {
  }

  lemma CharPrintable(c: CodePoint)
    ensures Printable(EscapeChar(c)) && Printable([])
  {
  }

  lemma {:induction false} EscapePrintable(s: Text)
    ensures Printable(EscapeText(s))
  {
    hide Printable, EscapeChar;
    CharPrintable(if s == [] then 32 else s[0]);
    if s != [] {
      EscapePrintable(s[1..]);
      PrintableConcat(EscapeChar(s[0]), EscapeText(s[1..]));
    }
  }

  lemma IntPrintable(n: int)
    ensures Printable(IntText(n))
  {
  }

  lemma FloatPrintable(lexeme: Text)
    requires IsFloat(lexeme)
    ensures Printable(lexeme)
  {
    hide LexNumber;
    if lexeme != NAN && lexeme != INFINITY && lexeme != MINUS_INFINITY {
      NumberChars(lexeme);
      assert lexeme[..|lexeme|] == lexeme;
    }
  }

  lemma {:induction false} PrintPrintable(v: Value, gap: Text)
    requires WellFormed(v) && Printable(gap)
    ensures Printable(Print(v, gap))
    decreases v, 0
  {
    hide LexNumber, EscapeText, IntText, PrintItems, PrintFields;
    match v
    case Int(n) => IntPrintable(n);
    case Float(lexeme) => FloatPrintable(lexeme);
    case Str(s) => EscapePrintable(s);
    case Arr(items) => ItemsPrintable(items, gap);
    case Obj(fs) => FieldsPrintable(fs, gap);
    case _ =>
  }

  lemma {:induction false} ItemsPrintable(items: seq<Value>, gap: Text)
    requires forall i :: 0 <= i < |items| ==> WellFormed(items[i])
    requires Printable(gap)
    ensures Printable(PrintItems(items, gap))
    decreases items
  {
    hide Print;
    if items != [] {
      PrintPrintable(items[0], gap);
      ItemsPrintable(items[1..], gap);
    }
  }

  lemma {:induction false} FieldsPrintable(fs: seq<Field>, gap: Text)
    requires forall i :: 0 <= i < |fs| ==> WellFormed(fs[i].value)
    requires Printable(gap)
    ensures Printable(PrintFields(fs, gap))
    decreases fs
  {
    hide Print, Printable, WellFormed, PrintField;
    MarksPrintable();
    if fs != [] {
      PrintPrintable(fs[0].value, gap);
      FieldPrintable(fs[0], gap);
      FieldsPrintable(fs[1..], gap);
      PrintableConcat(PrintField(fs[0], gap), [COMMA]);
      PrintableConcat(PrintField(fs[0], gap) + [COMMA], gap);
      PrintableConcat(PrintField(fs[0], gap) + [COMMA] + gap, PrintFields(fs[1..], gap));
    }
  }

  lemma MarksPrintable()
    ensures Printable([]) && Printable([QUOTE]) && Printable([COMMA]) && Printable([COLON])
  {
  }

  lemma FieldPrintable(f: Field, gap: Text)
    requires Printable(gap) && Printable(Print(f.value, gap))
    ensures Printable(PrintField(f, gap))
  {
    hide Printable, Print, EscapeText;
    MarksPrintable();
    EscapePrintable(f.key);
    PrintableConcat([QUOTE], EscapeText(f.key));
    PrintableConcat([QUOTE] + EscapeText(f.key), [QUOTE]);
    PrintableConcat(PrintString(f.key), [COLON]);
    PrintableConcat(PrintString(f.key) + [COLON], gap);
    PrintableConcat(PrintString(f.key) + [COLON] + gap, Print(f.value, gap));
  }

  lemma DumpsPrintable(v: Value, gap: Text)
    requires WellFormed(v) && Printable(gap)
    ensures Printable(Dumps(v, gap)) && Dumps(v, gap) != []
  {
    SortedWellFormed(v);
    PrintPrintable(Sorted(v), gap);
    PrintStarts(Sorted(v), gap);
  }
}
