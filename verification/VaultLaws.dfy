/** The vault opens again for answers with the same normal form, and for nothing else unless a
    primitive fails; and its header cannot be changed. */
module VaultLaws {
  import opened Texts
  import opened Bytes
  import opened Json
  import opened JsonOrder
  import opened JsonText
  import opened JsonRoundTrip
  import opened JsonCanonical
  import opened JsonParsed
  import opened JsonPlain
  import opened VaultAnswers
  import opened Vault

  // ------------------------------------------------------------ what is stored

  lemma {:induction false} HexPrintable(b: Bytes)
    ensures Printable(Hex(b))
  {
    if b != [] {
      HexPrintable(b[1..]);
    }
  }

  lemma KdfPlain(cost: Cost, salt: Bytes)
    ensures WellFormed(KdfValue(cost, salt)) && PlainKeys(KdfValue(cost, salt))
  {
    var fs := KdfValue(cost, salt).fields;
    assert KDF_NAME[0] == 110 && KDF_N[0] == 110 && KDF_R[0] == 114 && KDF_P[0] == 112 && KDF_SALT[0] == 115;
    assert |KDF_NAME| == 4 && |KDF_N| == 1;
    assert DistinctKeys(fs);
  }

  predicate DocKeys(fs: seq<Field>) {
    && |fs| == 7
    && fs[0].key == SCHEMA_KEY && fs[1].key == NORM_KEY && fs[2].key == FINGERPRINT && fs[3].key == KDF
    && fs[4].key == QUESTIONS && fs[5].key == NONCE && fs[6].key == CIPHERTEXT
  }

  lemma DocKeysDiffer(fs: seq<Field>)
    requires DocKeys(fs)
    ensures DistinctKeys(fs)
  {
    assert SCHEMA_KEY[0] == 115 && NORM_KEY[0] == 110 && FINGERPRINT[0] == 102 && KDF[0] == 107;
    assert QUESTIONS[0] == 113 && NONCE[0] == 110 && CIPHERTEXT[0] == 99 && |NORM_KEY| != |NONCE|;
  }

  lemma DocKeysPrintable(fs: seq<Field>)
    requires DocKeys(fs)
    ensures forall i :: 0 <= i < |fs| ==> Printable(fs[i].key)
  {
  }

  lemma QuestionsPlain(questions: seq<Text>)
    ensures WellFormed(Arr(TextItems(questions))) && PlainKeys(Arr(TextItems(questions)))
  {
  }

  lemma DocPlain(m: Making, nonce: Bytes, blob: Bytes)
    ensures var fs := DocFields(HeaderFor(m), nonce, blob);
      DocKeys(fs) && WellFormed(Obj(fs)) && PlainKeys(Obj(fs))
  {
    hide Lit, KdfValue, TextItems, Printable;
    var fs := DocFields(HeaderFor(m), nonce, blob);
    assert DocKeys(fs);
    DocKeysDiffer(fs);
    DocKeysPrintable(fs);
    KdfPlain(m.cost, m.salt);
    QuestionsPlain(m.questions);
  }

  function DocOf(prims: Primitives, key: Bytes, m: Making): seq<Field> {
    DocFields(HeaderFor(m), m.nonce, BlobOf(prims, key, m))
  }

  function BlobOf(prims: Primitives, key: Bytes, m: Making): Bytes {
    prims.encrypt(key, m.nonce, Dumps(m.payload, SPACED), Associated(HeaderFor(m)))
  }

  /** The document as it is read back: the same fields, their texts with surrogates combined. */
  lemma StoredDoc(prims: Primitives, key: Bytes, m: Making)
    ensures Loads(VaultText(prims, key, m)) == Some(Obj(JoinedFields(DocOf(prims, key, m))))
    ensures DocKeys(JoinedFields(DocOf(prims, key, m)))
  {
    hide ParseValue, Print, Joined, PlainKeys, WellFormed, DocFields, HeaderFields, Associated, Dumps, Combine;
    var fs := DocOf(prims, key, m);
    DocPlain(m, m.nonce, BlobOf(prims, key, m));
    PlainParts(fs);
    JoinedPlain(fs);
    var t := VaultText(prims, key, m);
    ValueRoundTrip(Obj(fs), SPACED, []);
    assert t + [] == t;
    PrintStarts(Obj(fs), SPACED);
    assert SkipSpace(t) == t;
  }

  lemma PlainParts(fs: seq<Field>)
    requires PlainKeys(Obj(fs))
    ensures DistinctKeys(fs) && forall i :: 0 <= i < |fs| ==> Printable(fs[i].key)
  {
  }

  lemma StoredField(fs: seq<Field>, i: nat)
    requires DistinctKeys(fs) && i < |fs| && forall j :: 0 <= j < |fs| ==> Printable(fs[j].key)
    ensures Get(Obj(JoinedFields(fs)), fs[i].key) == Some(Joined(fs[i].value))
  {
    hide Joined, Printable, Combine;
    JoinedPlain(fs);
    LookupFinds(JoinedFields(fs), i);
  }

  lemma StoredHex(b: Bytes)
    ensures AsBytes(Some(Joined(Str(Hex(b))))) == Some(b)
  {
    HexPrintable(b);
    PlainCombine(Hex(b));
    OctetsRoundTrip(b);
  }

  lemma StoredKdfField(cost: Cost, salt: Bytes, i: nat)
    requires i < 5
    ensures var fs := KdfValue(cost, salt).fields;
      |fs| == 5 && Get(Joined(KdfValue(cost, salt)), fs[i].key) == Some(Joined(fs[i].value))
  {
    hide Lit, Joined, PlainKeys, Printable, Combine, Hex, Get;
    var fs := KdfValue(cost, salt).fields;
    KdfPlain(cost, salt);
    PlainParts(fs);
    JoinedPlain(fs);
    StoredField(fs, i);
  }

  lemma StoredKdf(cost: Cost, salt: Bytes)
    ensures var kdf := Joined(KdfValue(cost, salt));
      CostOf(Some(kdf)) == Some(cost) && AsBytes(Get(kdf, KDF_SALT)) == Some(salt)
  {
    hide Lit, Joined, Hex, AsBytes, Get;
    StoredKdfField(cost, salt, 1);
    StoredKdfField(cost, salt, 2);
    StoredKdfField(cost, salt, 3);
    StoredKdfField(cost, salt, 4);
    JoinedInt(cost.n);
    JoinedInt(cost.r);
    JoinedInt(cost.p);
    StoredHex(salt);
  }

  lemma JoinedInt(n: int)
    ensures Joined(Int(n)) == Int(n)
  {
  }

  lemma StoredHeader(fs: seq<Field>)
    requires DocKeys(fs) && DistinctKeys(fs)
    ensures HeaderOf(Obj(fs)) == fs[..5]
  {
    hide Lit, Lookup;
    LookupFinds(fs, 0);
    LookupFinds(fs, 1);
    LookupFinds(fs, 2);
    LookupFinds(fs, 3);
    LookupFinds(fs, 4);
    assert fs[..5] == [fs[0]] + [fs[1]] + [fs[2]] + [fs[3]] + [fs[4]];
  }

  lemma HeaderPlain(m: Making)
    ensures PlainKeys(Obj(HeaderFor(m))) && WellFormed(Obj(HeaderFor(m)))
  {
    hide Lit, KdfValue, TextItems, Printable;
    DocPlain(m, [], []);
    var fs := DocFields(HeaderFor(m), [], []);
    var hs := HeaderFor(m);
    assert hs == fs[..5];
    assert forall i :: 0 <= i < 5 ==> hs[i] == fs[i];
  }

  lemma StoredAssociated(prims: Primitives, key: Bytes, m: Making)
    ensures var doc := Obj(JoinedFields(DocOf(prims, key, m)));
      HeaderOf(doc) == JoinedFields(HeaderFor(m)) && Associated(HeaderOf(doc)) == Associated(HeaderFor(m))
  {
    hide Lit, KdfValue, TextItems, Joined, PlainKeys, WellFormed, Dumps, HeaderOf, Hex, Combine, Printable;
    var fs := DocOf(prims, key, m);
    DocPlain(m, m.nonce, BlobOf(prims, key, m));
    PlainParts(fs);
    JoinedPlain(fs);
    StoredDoc(prims, key, m);
    StoredHeader(JoinedFields(fs));
    var hs := HeaderFor(m);
    assert JoinedFields(fs)[..5] == JoinedFields(hs);
    HeaderPlain(m);
    PlainParts(hs);
    JoinedPlain(hs);
    DumpsJoined(Obj(hs), SPACED);
  }

  /** What opening reads from the stored document, field by field. */
  lemma StoredParts(prims: Primitives, key: Bytes, m: Making)
    ensures var doc := Obj(JoinedFields(DocOf(prims, key, m)));
      && Get(doc, SCHEMA_KEY) == Some(Int(SCHEMA)) && Get(doc, NORM_KEY) == Some(Int(NORM_VERSION))
      && Get(doc, KDF) == Some(Joined(KdfValue(m.cost, m.salt)))
      && AsBytes(Get(doc, NONCE)) == Some(m.nonce) && AsBytes(Get(doc, CIPHERTEXT)) == Some(BlobOf(prims, key, m))
  {
    hide Lit, KdfValue, TextItems, PlainKeys, WellFormed, Hex, Printable, Joined, Combine, AsBytes, BlobOf, Lookup;
    var fs := DocOf(prims, key, m);
    DocPlain(m, m.nonce, BlobOf(prims, key, m));
    PlainParts(fs);
    StoredField(fs, 0);
    StoredField(fs, 1);
    StoredField(fs, 3);
    StoredField(fs, 5);
    StoredField(fs, 6);
    JoinedInt(SCHEMA);
    JoinedInt(NORM_VERSION);
    StoredHex(m.nonce);
    StoredHex(BlobOf(prims, key, m));
  }

  /** From the stored text, decryption is asked with exactly what encryption was given, but
      for the key, which comes from the answers offered and the document's own salt and cost. */
  lemma PreparedStored(prims: Primitives, normalise: Normalise, key: Bytes, m: Making, answers: seq<Text>)
    requires Frames(normalise, answers).Some?
    ensures var doc := Obj(JoinedFields(DocOf(prims, key, m)));
      Prepare(prims, normalise, doc, answers) ==
        Ok(Sealed(prims.scrypt(Frames(normalise, answers).value, m.salt, m.cost), m.nonce,
                  BlobOf(prims, key, m), Associated(HeaderFor(m))))
  {
    hide Lit, DocOf, JoinedFields, KdfValue, HeaderOf, Frames, Joined, Associated, CostOf, AsBytes, BlobOf, Get, Sorted, Numeric;
    StoredParts(prims, key, m);
    StoredKdf(m.cost, m.salt);
    StoredAssociated(prims, key, m);
  }

  // ------------------------------------------------------------ opening again

  /** Decrypting what was encrypted gives it back. */
  predicate Decrypts(prims: Primitives, key: Bytes, nonce: Bytes, plain: Text, associated: Text) {
    prims.decrypt(key, nonce, prims.encrypt(key, nonce, plain, associated), associated) == Some(plain)
  }

  /** A vault opens for any answers with the same normal form, whatever cost it was made with:
      opening reads the cost from the vault, never from today's constants. */
  lemma Reopens(prims: Primitives, normalise: Normalise, m: Making, answers: seq<Text>, later: seq<Text>)
    requires WellFormed(m.payload)
    requires Frames(normalise, answers).Some? && Normalised(normalise, later) == Normalised(normalise, answers)
    requires var key := prims.scrypt(Frames(normalise, answers).value, m.salt, m.cost);
      Decrypts(prims, key, m.nonce, Dumps(m.payload, SPACED), Associated(HeaderFor(m)))
    ensures var key := prims.scrypt(Frames(normalise, answers).value, m.salt, m.cost);
      Open(prims, normalise, VaultText(prims, key, m), later) == Payload(JsonRoundTrip.Joined(Sorted(m.payload)))
  {
    hide Loads, Dumps, Prepare, VaultText, Frames, Associated, HeaderFields, DocFields, Joined, Sorted, WellFormed;
    var key := prims.scrypt(Frames(normalise, answers).value, m.salt, m.cost);
    SameNormalForm(normalise, answers, later);
    StoredDoc(prims, key, m);
    PreparedStored(prims, normalise, key, m, later);
    LoadsDumps(m.payload, SPACED);
  }

  lemma {:induction false} SameNormalForm(normalise: Normalise, a: seq<Text>, b: seq<Text>)
    requires Normalised(normalise, a) == Normalised(normalise, b)
    ensures Frames(normalise, a) == Frames(normalise, b)
  {
    assert |a| == |b|;
    if a != [] {
      var na, nb := Normalised(normalise, a), Normalised(normalise, b);
      assert na[1..] == Normalised(normalise, a[1..]) && nb[1..] == Normalised(normalise, b[1..]);
      assert normalise(a[0]) == na[0] == nb[0] == normalise(b[0]);
      SameNormalForm(normalise, a[1..], b[1..]);
    }
  }

  // ------------------------------------------------------------ opening only then

  /** Two answer texts scrypt does not tell apart under one salt and cost. */
  predicate KdfCollision(prims: Primitives, a: Bytes, b: Bytes, salt: Bytes, cost: Cost) {
    a != b && prims.scrypt(a, salt, cost) == prims.scrypt(b, salt, cost)
  }

  /** A ciphertext made for one key, nonce and header that decrypts under another. */
  predicate Forged(prims: Primitives, made: Sealed, tried: Sealed) {
    && tried.blob == made.blob && tried != made
    && prims.decrypt(tried.key, tried.nonce, tried.blob, tried.associated).Some?
  }

  function MadeBy(prims: Primitives, key: Bytes, m: Making): Sealed {
    Sealed(key, m.nonce, BlobOf(prims, key, m), Associated(HeaderFor(m)))
  }

  /** Answers that open the untouched file have the same normal form as those it was made
      with, or a primitive has failed on these very inputs. */
  lemma OpensOnlyForAnswers(prims: Primitives, normalise: Normalise, m: Making, answers: seq<Text>, tried: seq<Text>)
    requires Frames(normalise, answers).Some? && Frames(normalise, tried).Some?
    ensures var canonical, offered := Frames(normalise, answers).value, Frames(normalise, tried).value;
      var key := prims.scrypt(canonical, m.salt, m.cost);
      Open(prims, normalise, VaultText(prims, key, m), tried).Payload? ==>
        Normalised(normalise, tried) == Normalised(normalise, answers)
        || KdfCollision(prims, canonical, offered, m.salt, m.cost)
        || Forged(prims, MadeBy(prims, key, m),
                  MadeBy(prims, key, m).(key := prims.scrypt(offered, m.salt, m.cost)))
  {
    hide Loads, Dumps, Prepare, VaultText, Frames, Associated, HeaderFields, DocFields, Joined, Sorted;
    var key := prims.scrypt(Frames(normalise, answers).value, m.salt, m.cost);
    StoredDoc(prims, key, m);
    PreparedStored(prims, normalise, key, m, tried);
    FramesExact(normalise, answers, tried);
  }

  lemma HeaderClean(doc: Value)
    requires WellFormed(doc) && AllPairFree(doc)
    ensures WellFormed(Obj(HeaderOf(doc))) && AllPairFree(Obj(HeaderOf(doc)))
  {
    hide Lit, Present, CleanFields, WellFormed, AllPairFree;
    PresentClean(doc, SCHEMA_KEY);
    PresentClean(doc, NORM_KEY);
    PresentClean(doc, FINGERPRINT);
    PresentClean(doc, KDF);
    PresentClean(doc, QUESTIONS);
    var two := Present(doc, SCHEMA_KEY) + Present(doc, NORM_KEY);
    CleanConcat(Present(doc, SCHEMA_KEY), Present(doc, NORM_KEY));
    CleanConcat(two, Present(doc, FINGERPRINT));
    CleanConcat(two + Present(doc, FINGERPRINT), Present(doc, KDF));
    CleanConcat(two + Present(doc, FINGERPRINT) + Present(doc, KDF), Present(doc, QUESTIONS));
    HeaderDistinct(doc);
    CleanObject(HeaderOf(doc));
  }

  ghost predicate CleanFields(fs: seq<Field>) {
    forall i :: 0 <= i < |fs| ==> WellFormed(fs[i].value) && AllPairFree(fs[i].value) && PairFree(fs[i].key)
  }

  lemma CleanConcat(a: seq<Field>, b: seq<Field>)
    requires CleanFields(a) && CleanFields(b)
    ensures CleanFields(a + b)
  {
    hide WellFormed, AllPairFree, PairFree;
  }

  lemma CleanObject(fs: seq<Field>)
    requires CleanFields(fs) && DistinctKeys(fs)
    ensures WellFormed(Obj(fs)) && AllPairFree(Obj(fs))
  {
    hide PairFree;
  }

  lemma PresentClean(doc: Value, key: Text)
    requires WellFormed(doc) && AllPairFree(doc)
    ensures CleanFields(Present(doc, key))
  {
  }

  lemma HeaderDistinct(doc: Value)
    ensures DistinctKeys(HeaderOf(doc))
  {
    assert SCHEMA_KEY[0] == 115 && NORM_KEY[0] == 110 && FINGERPRINT[0] == 102 && KDF[0] == 107 && QUESTIONS[0] == 113;
  }

  /** Take any document at all, under any answers, that carries the ciphertext of a vault. If
      it opens, its header is the vault's own, up to key order, or the cipher accepted a
      ciphertext under a key, nonce or header it was not made for. */
  lemma HeaderIsAuthenticated(prims: Primitives, normalise: Normalise, key: Bytes, m: Making, text: Text, tried: seq<Text>)
    requires NoSurrogates(text) && Loads(text).Some?
    requires Prepare(prims, normalise, Loads(text).value, tried).Ok?
    requires Prepare(prims, normalise, Loads(text).value, tried).value.blob == BlobOf(prims, key, m)
    ensures var stored := Obj(JoinedFields(HeaderFor(m)));
      Open(prims, normalise, text, tried).Payload? ==>
        Same(Obj(HeaderOf(Loads(text).value)), stored)
        || Forged(prims, MadeBy(prims, key, m), Prepare(prims, normalise, Loads(text).value, tried).value)
  {
    hide Loads, Dumps, Frames, HeaderFields, DocFields, Joined, Sorted, HeaderOf, NoSurrogates, WellFormed,
         AllPairFree, Same, CanonicalFor, Combine, Equal;
    var doc := Loads(text).value;
    LoadsGood(text);
    if Prepare(prims, normalise, doc, tried).value == MadeBy(prims, key, m) {
      HeaderClean(doc);
      StoredHeaderClean(m);
      StoredHeaderText(m);
      CanonicalDecidesSame(Obj(HeaderOf(doc)), Obj(JoinedFields(HeaderFor(m))), SPACED);
    }
  }

  lemma StoredHeaderText(m: Making)
    ensures Associated(JoinedFields(HeaderFor(m))) == Associated(HeaderFor(m))
  {
    hide Dumps, Joined, Sorted, HeaderFields;
    HeaderPlain(m);
    PlainParts(HeaderFor(m));
    JoinedPlain(HeaderFor(m));
    DumpsJoined(Obj(HeaderFor(m)), SPACED);
  }

  lemma StoredHeaderClean(m: Making)
    ensures WellFormed(Obj(JoinedFields(HeaderFor(m)))) && AllPairFree(Obj(JoinedFields(HeaderFor(m))))
  {
    hide Joined, Sorted, HeaderFields, WellFormed, AllPairFree, PlainKeys, Loads, Print, ParseValue;
    var h := Obj(HeaderFor(m));
    HeaderPlain(m);
    PlainParts(HeaderFor(m));
    JoinedPlain(HeaderFor(m));
    var t := Print(h, SPACED);
    PrintPrintable(h, SPACED);
    ValueRoundTrip(h, SPACED, []);
    assert t + [] == t;
    ValueGood(t);
    assert NoSurrogates(t);
  }

  // ------------------------------------------------------------ what the file tells its owner

  /** The questions as they are read back. */
  function Asked(questions: seq<Text>): (vs: seq<Value>)
    ensures |vs| == |questions| && forall i :: 0 <= i < |vs| ==> vs[i] == Str(Combine(questions[i]))
  {
    seq(|questions|, i requires 0 <= i < |questions| => Str(Combine(questions[i])))
  }

  lemma AskedStored(questions: seq<Text>)
    ensures Joined(Arr(TextItems(questions))) == Arr(Asked(questions))
  {
    hide Combine;
    JoinedArr(TextItems(questions));
    assert JoinedItems(TextItems(questions)) == Asked(questions);
  }

  lemma TextStored(s: Text)
    ensures Joined(Str(s)) == Str(Combine(s))
    ensures Printable(s) ==> Combine(s) == s
  {
    if Printable(s) {
      PlainCombine(s);
    }
  }

  lemma ScryptPrintable()
    ensures Printable(Lit("scrypt"))
  {
  }

  lemma HeaderOrder(m: Making, blob: Bytes)
    ensures var fs := DocFields(HeaderFor(m), m.nonce, blob);
      && |fs| == 7 && fs[2] == Field(FINGERPRINT, Str(m.fingerprint)) && fs[4] == Field(QUESTIONS, Arr(TextItems(m.questions)))
      && fs[3] == Field(KDF, KdfValue(m.cost, m.salt))
  {
    hide KdfValue, TextItems, Lit, Hex;
  }

  /** Years later the file tells which vault it is, which questions to answer, and how the key
      is to be derived: as they were when it was made. */
  lemma StoredTells(prims: Primitives, key: Bytes, m: Making)
    ensures var doc := Loads(VaultText(prims, key, m));
      && doc.Some? && doc.value.Obj?
      && Get(doc.value, SCHEMA_KEY) == Some(Int(1)) && Get(doc.value, NORM_KEY) == Some(Int(1))
      && Get(doc.value, FINGERPRINT) == Some(Str(Combine(m.fingerprint)))
      && Get(doc.value, QUESTIONS) == Some(Arr(Asked(m.questions)))
      && Get(doc.value, KDF).Some? && KdfTells(Get(doc.value, KDF).value, m)
  {
    hide Lit, KdfValue, TextItems, PlainKeys, WellFormed, Printable, Joined, Combine, BlobOf, Get, KdfTells, Loads, VaultText, DocFields, HeaderFields;
    var fs := DocOf(prims, key, m);
    StoredDoc(prims, key, m);
    StoredParts(prims, key, m);
    DocPlain(m, m.nonce, BlobOf(prims, key, m));
    PlainParts(fs);
    HeaderOrder(m, BlobOf(prims, key, m));
    StoredField(fs, 2);
    StoredField(fs, 4);
    TextStored(m.fingerprint);
    AskedStored(m.questions);
    StoredKdfTells(m);
  }

  predicate KdfTells(kdf: Value, m: Making) {
    && Get(kdf, KDF_NAME) == Some(Str(Lit("scrypt")))
    && Get(kdf, KDF_N) == Some(Int(m.cost.n)) && Get(kdf, KDF_R) == Some(Int(m.cost.r)) && Get(kdf, KDF_P) == Some(Int(m.cost.p))
    && Get(kdf, KDF_SALT) == Some(Str(Hex(m.salt)))
  }

  lemma StoredKdfTells(m: Making)
    ensures KdfTells(Joined(KdfValue(m.cost, m.salt)), m)
  {
    hide Lit, Joined, Hex, Get, Combine, Printable;
    StoredKdfField(m.cost, m.salt, 0);
    StoredKdfField(m.cost, m.salt, 1);
    StoredKdfField(m.cost, m.salt, 2);
    StoredKdfField(m.cost, m.salt, 3);
    StoredKdfField(m.cost, m.salt, 4);
    JoinedInt(m.cost.n);
    JoinedInt(m.cost.r);
    JoinedInt(m.cost.p);
    TextStored(Hex(m.salt));
    HexPrintable(m.salt);
    TextStored(Lit("scrypt"));
    ScryptPrintable();
  }

  lemma SameGet(a: seq<Field>, b: seq<Field>, key: Text)
    requires DistinctKeys(a) && DistinctKeys(b) && Same(Obj(a), Obj(b)) && HasKey(b, key)
    ensures Lookup(a, key).Some? ==> Same(Lookup(a, key).value, Lookup(b, key).value)
  {
    if Lookup(a, key).Some? {
      var i :| 0 <= i < |a| && a[i] == Field(key, Lookup(a, key).value);
      assert SameField(a[i], b);
      var j :| 0 <= j < |b| && b[j].key == key && Same(a[i].value, b[j].value);
      LookupFinds(b, j);
    }
  }

  lemma {:induction false} SameKeys(a: seq<Field>, b: seq<Field>)
    requires DistinctKeys(a) && |a| == |b| && forall i :: 0 <= i < |a| ==> HasKey(b, a[i].key)
    ensures forall k :: HasKey(b, k) ==> HasKey(a, k)
  {
    hide DistinctKeys;
    KeyCount(a);
    KeyCount(b);
    var ka, kb := set i | 0 <= i < |a| :: a[i].key, set i | 0 <= i < |b| :: b[i].key;
    assert ka <= kb;
    SubsetAll(ka, kb);
    forall k | HasKey(b, k)
      ensures HasKey(a, k)
    {
      assert k in kb;
      var i :| 0 <= i < |a| && a[i].key == k;
    }
  }

  lemma {:induction false} KeyCount(fs: seq<Field>)
    ensures |set i | 0 <= i < |fs| :: fs[i].key| <= |fs|
    ensures DistinctKeys(fs) ==> |set i | 0 <= i < |fs| :: fs[i].key| == |fs|
  {
    if fs != [] {
      var front := fs[..|fs| - 1];
      KeyCount(front);
      var last := fs[|fs| - 1].key;
      assert (set i | 0 <= i < |fs| :: fs[i].key) == (set i | 0 <= i < |front| :: front[i].key) + {last};
      if DistinctKeys(fs) {
        assert last !in (set i | 0 <= i < |front| :: front[i].key);
        assert DistinctKeys(front);
      }
    }
  }

  lemma SubsetAll<T>(a: set<T>, b: set<T>)
    requires a <= b && |a| >= |b|
    ensures a == b
  {
    if a != b {
      var x :| x in b && x !in a;
      SubsetSize(a, b - {x});
    }
  }

  lemma {:induction false} SubsetSize<T>(a: set<T>, b: set<T>)
    requires a <= b
    ensures |a| <= |b|
  {
    if a != {} {
      var x :| x in a;
      SubsetSize(a - {x}, b - {x});
    }
  }

  lemma SameText(v: Value, s: Text)
    ensures Same(v, Str(s)) <==> v == Str(s)
  {
  }

  lemma SameTexts(v: Value, ts: seq<Value>)
    requires forall i :: 0 <= i < |ts| ==> ts[i].Str?
    ensures Same(v, Arr(ts)) ==> v == Arr(ts)
  {
    if Same(v, Arr(ts)) && v.Arr? {
      forall i | 0 <= i < |ts|
        ensures v.items[i] == ts[i]
      {
        SameText(v.items[i], ts[i].s);
      }
    }
  }

  lemma HeaderGets(doc: Value, key: Text)
    requires key == FINGERPRINT || key == QUESTIONS
    ensures Lookup(HeaderOf(doc), key) == Get(doc, key)
  {
    hide Lit, Get, Lookup;
    HeaderDistinct(doc);
    var fs := HeaderOf(doc);
    if Get(doc, key).Some? {
      assert Field(key, Get(doc, key).value) in fs;
      var i :| 0 <= i < |fs| && fs[i] == Field(key, Get(doc, key).value);
      LookupFinds(fs, i);
    }
  }

  /** Nobody can put other questions, or another machine's name, in front of an owner: a document
      that carries the vault's ciphertext and opens has the vault's own, or the cipher failed. */
  lemma {:induction false} QuestionsAreTheOwners(prims: Primitives, normalise: Normalise, key: Bytes, m: Making, text: Text, tried: seq<Text>)
    requires NoSurrogates(text) && Loads(text).Some?
    requires Prepare(prims, normalise, Loads(text).value, tried).Ok?
    requires Prepare(prims, normalise, Loads(text).value, tried).value.blob == BlobOf(prims, key, m)
    ensures Open(prims, normalise, text, tried).Payload? ==>
        (Get(Loads(text).value, QUESTIONS) == Some(Arr(Asked(m.questions))) &&
         Get(Loads(text).value, FINGERPRINT) == Some(Str(Combine(m.fingerprint))))
        || Forged(prims, MadeBy(prims, key, m), Prepare(prims, normalise, Loads(text).value, tried).value)
  {
    hide Loads, Dumps, Frames, HeaderFields, DocFields, Joined, Sorted, HeaderOf, NoSurrogates, WellFormed, Prepare, Open,
         AllPairFree, Same, CanonicalFor, Combine, Equal, Get, Lookup, Lit, MadeBy, Forged, BlobOf;
    HeaderIsAuthenticated(prims, normalise, key, m, text, tried);
    var doc := Loads(text).value;
    if Same(Obj(HeaderOf(doc)), Obj(JoinedFields(HeaderFor(m)))) {
      HeaderSays(doc, m);
    }
  }

  lemma {:induction false} HeaderSays(doc: Value, m: Making)
    requires Same(Obj(HeaderOf(doc)), Obj(JoinedFields(HeaderFor(m))))
    ensures Get(doc, QUESTIONS) == Some(Arr(Asked(m.questions)))
    ensures Get(doc, FINGERPRINT) == Some(Str(Combine(m.fingerprint)))
  {
    hide Joined, HeaderOf, Combine, Get, Lookup, Lit, KdfValue, TextItems, Same, PlainKeys, WellFormed, HeaderFields, Printable;
    var a, b := HeaderOf(doc), JoinedFields(HeaderFor(m));
    HeaderDistinct(doc);
    HeaderPlain(m);
    PlainParts(HeaderFor(m));
    JoinedPlain(HeaderFor(m));
    HeaderHas(m);
    SameHas(a, b);
    HeaderGets(doc, QUESTIONS);
    HeaderGets(doc, FINGERPRINT);
    SameGet(a, b, QUESTIONS);
    SameGet(a, b, FINGERPRINT);
    SameTexts(Lookup(a, QUESTIONS).value, Asked(m.questions));
    SameText(Lookup(a, FINGERPRINT).value, Combine(m.fingerprint));
  }

  lemma SameHas(a: seq<Field>, b: seq<Field>)
    requires DistinctKeys(a) && Same(Obj(a), Obj(b))
    ensures forall k :: HasKey(b, k) ==> HasKey(a, k)
  {
    hide DistinctKeys;
    forall i | 0 <= i < |a|
      ensures HasKey(b, a[i].key)
    {
      assert SameField(a[i], b);
    }
    SameKeys(a, b);
  }

  lemma HeaderHas(m: Making)
    ensures var b := JoinedFields(HeaderFor(m));
      && Lookup(b, QUESTIONS) == Some(Arr(Asked(m.questions))) && Lookup(b, FINGERPRINT) == Some(Str(Combine(m.fingerprint)))
  {
    hide Joined, Combine, Lookup, Lit, KdfValue, TextItems, PlainKeys, WellFormed, Printable;
    var hs := HeaderFor(m);
    HeaderPlain(m);
    PlainParts(hs);
    JoinedPlain(hs);
    LookupFinds(JoinedFields(hs), 2);
    LookupFinds(JoinedFields(hs), 4);
    AskedStored(m.questions);
    TextStored(m.fingerprint);
  }

  /** One answer for everything that did not open: whatever the document, once its key can be
      derived, the owner is told of wrong answers exactly if the octets are no hexadecimal or the
      cipher refuses. */
  lemma WrongExactly(prims: Primitives, normalise: Normalise, doc: Value, text: Text, tried: seq<Text>)
    requires Loads(text) == Some(doc) && doc.Obj? && Get(doc, SCHEMA_KEY) == Some(Int(1))
    requires Get(doc, NORM_KEY) == None || Get(doc, NORM_KEY) == Some(Int(1))
    requires Frames(normalise, tried).Some?
    requires Get(doc, KDF).Some? && CostOf(Get(doc, KDF)).Some? && AsBytes(Get(Get(doc, KDF).value, KDF_SALT)).Some?
    ensures var kdf := Get(doc, KDF);
      var key := prims.scrypt(Frames(normalise, tried).value, AsBytes(Get(kdf.value, KDF_SALT)).value, CostOf(kdf).value);
      var nonce, blob := AsBytes(Get(doc, NONCE)), AsBytes(Get(doc, CIPHERTEXT));
      Open(prims, normalise, text, tried) == WrongAnswers <==>
        nonce == None || blob == None || prims.decrypt(key, nonce.value, blob.value, Associated(HeaderOf(doc))) == None
  {
    hide Loads, Frames, Associated, HeaderOf, CostOf, AsBytes, Get, Lit, Sorted, Numeric;
    OneIsOne();
  }

  lemma OneIsOne()
    ensures Equal(Int(1), Int(SCHEMA))
  {
  }

  /** A file of another schema is refused as such, whatever else is in it, and no other is. */
  lemma SchemaExact(prims: Primitives, normalise: Normalise, text: Text, tried: seq<Text>)
    requires Loads(text).Some? && Loads(text).value.Obj?
    ensures Open(prims, normalise, text, tried) == WrongSchema <==>
      match Get(Loads(text).value, SCHEMA_KEY)
      case None => true
      case Some(v) => v != Int(1) && v != Bool(true)
  {
    hide Loads, Frames, Associated, HeaderOf, CostOf, AsBytes, Get, Lit, Equal;
    var schema := Get(Loads(text).value, SCHEMA_KEY);
    if schema.Some? {
      EqualExact(schema.value, 1, true, []);
      EqualTurned(schema.value, Int(SCHEMA));
    }
    NeverSchema(normalise, Loads(text).value, tried);
  }

  lemma EqualTurned(a: Value, b: Value)
    ensures Equal(a, b) <==> Equal(b, a)
  {
  }

  lemma NeverSchema(normalise: Normalise, doc: Value, tried: seq<Text>)
    ensures CanonicalFor(normalise, doc, tried) != Err(WrongSchema)
  {
    hide Frames, Get;
  }
}
