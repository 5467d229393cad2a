/** Turning a model's reply into at most one proposal, and the laws the scanner obeys on
    whole replies (engine/steward/steward-parse.py). */
module StewardParse {
  import opened Texts
  import opened Json
  import opened JsonNumber
  import opened JsonText
  import opened JsonRoundTrip
  import opened JsonCanonical
  import opened Scanner
  import opened ScannerGrammar
  import Utf8

  const MAX_REPLY := 64 * 1024
  const PARAMS: Text := [112, 97, 114, 97, 109, 115]

  // ------------------------------------------------------------ composition

  lemma NeutralState(a: Text)
    requires Neutral(a)
    ensures Feed(START, a) == START.(found := Candidates(a))
  {
    FeedSound(START, a);
  }

  /** After a neutral text the scanner starts afresh: what follows contributes what it would
      contribute alone. */
  lemma Composition(a: Text, b: Text)
    requires Neutral(a)
    ensures Candidates(a + b) == Candidates(a) + Candidates(b)
    ensures Neutral(a + b) <==> Neutral(b)
  {
    FeedConcat(START, a, b);
    NeutralState(a);
    FeedAfter(Candidates(a), START, b);
    assert After(Candidates(a), START) == START.(found := Candidates(a)) by {
      assert Candidates(a) + [] == Candidates(a);
    }
  }

  // ------------------------------------------------------------ one object

  /** The text of a JSON object and nothing around it. */
  predicate IsObjectText(chunk: Text) {
    && chunk != [] && chunk[0] == LBRACE && chunk[|chunk| - 1] == RBRACE
    && Loads(chunk).Some? && Loads(chunk).value.Obj?
  }

  lemma {:induction false} SkipsToNothing(t: Text)
    requires SkipSpace(t) == []
    ensures t == [] || IsJsonSpace(t[|t| - 1])
  {
    var c := SpacePrefix(t);
  }

  lemma ObjectEndsText(chunk: Text)
    requires IsObjectText(chunk)
    ensures ParseValue(chunk).Done? && ParseValue(chunk).rest == []
  {
    var s := START.(depth := 1);
    var c := ValueScan(s, chunk);
    var rest := ParseValue(chunk).rest;
    SkipsToNothing(rest);
  }

  /** Over the whole text of an object, whatever its strings and nesting hold, the scanner
      emits that object at its last brace and is back where it started. */
  lemma ObjectScan(chunk: Text)
    requires IsObjectText(chunk)
    ensures Feed(START, chunk) == START.(found := Candidate(chunk))
  {
    hide Feed, ParseMembers, Dict, Candidate;
    var inner := START.(depth := 1, pending := [LBRACE]);
    var body := MembersScan(inner, chunk[1..]);
    ObjectEndsText(chunk);
    assert chunk == [LBRACE] + (body + [RBRACE]);
    assert chunk == [LBRACE] + body + [RBRACE];
    FeedOne(START, LBRACE);
    assert START.pending + [LBRACE] == [LBRACE];
    FeedConcat(START, [LBRACE], body);
    FeedConcat(START, [LBRACE] + body, [RBRACE]);
    FeedOne(Grow(inner, body), RBRACE);
    assert Grow(inner, body).pending + [RBRACE] == chunk;
    assert START.found + Candidate(chunk) == Candidate(chunk);
  }

  lemma ObjectNeutral(chunk: Text)
    requires IsObjectText(chunk)
    ensures Neutral(chunk) && Candidates(chunk) == Candidate(chunk)
  {
    ObjectScan(chunk);
  }

  /** Anything `json.dumps` prints from a dictionary is such a text. */
  lemma PrintedObject(v: Value, gap: Text)
    requires v.Obj? && WellFormed(v) && AllJsonSpace(gap)
    ensures IsObjectText(Dumps(v, gap))
    ensures Candidate(Dumps(v, gap)) == if IsCandidate(Joined(Sorted(v))) then [Joined(Sorted(v))] else []
  {
    LoadsDumps(v, gap);
  }

  // ------------------------------------------------------------ exactness of composition

  const PROBE_END: Text := [COLON, 48, RBRACE]

  /** `{"verb":0}`: its two quotes swap the inside and the outside of strings and swap them
      back, so a scanner that is not neutral walks over it without seeing an object. */
  const PROBE: Text := [LBRACE] + ([QUOTE] + (VERB + ([QUOTE] + PROBE_END)))

  const PROBE_VALUE := Obj([Field(VERB, Int(0))])

  lemma {:induction false} PlainEscape(s: Text)
    requires forall i :: 0 <= i < |s| ==> 32 <= s[i] <= 126 && s[i] != QUOTE && s[i] != BACKSLASH
    ensures EscapeText(s) == s
  {
    if s != [] {
      PlainEscape(s[1..]);
    }
  }

  lemma ProbePrints()
    ensures Print(PROBE_VALUE, []) == PROBE
  {
    hide EscapeText;
    PlainEscape(VERB);
    assert IntText(0) == [48];
    var f := Field(VERB, Int(0));
    assert PrintField(f, []) == [QUOTE] + (VERB + ([QUOTE] + [COLON, 48]));
    assert PrintFields([f], []) == PrintField(f, []);
  }

  lemma ProbeIsCandidate()
    ensures IsObjectText(PROBE) && Candidates(PROBE) == [PROBE_VALUE]
  {
    assert Sorted(PROBE_VALUE) == PROBE_VALUE;
    assert PROBE == Dumps(PROBE_VALUE, []) by {
      ProbePrints();
    }
    assert PairFree(VERB);
    RoundTripExact(PROBE_VALUE, []);
    ObjectNeutral(PROBE);
    assert PROBE_VALUE.fields[0].key == VERB;
  }

  /** The same state but for the pending text. */
  predicate Alike(s: State, r: State) {
    s.depth == r.depth && s.inString == r.inString && s.escape == r.escape && s.found == r.found
  }

  lemma {:induction false} PlainWalk(s: State, c: Text)
    requires !s.inString && !s.escape && Plain(c)
    ensures Alike(s, Feed(s, c))
    decreases c
  {
    if c != [] {
      PlainWalk(Step(s, c[0]), c[1..]);
    }
  }

  lemma {:induction false} QuotedWalk(s: State, c: Text)
    requires s.inString && !s.escape && Quoted(c)
    ensures Alike(s, Feed(s, c))
    decreases c
  {
    if c != [] {
      QuotedWalk(Step(s, c[0]), c[1..]);
    }
  }

  lemma ProbeMissed(s: State)
    requires Sound(s) && (s.depth > 0 || s.inString)
    ensures Feed(s, PROBE).found == s.found
  {
    hide Feed, Candidate;
    ProbeIsCandidate();
    if !s.inString {
      var c := ValueScan(s, PROBE);
      assert ParseValue(PROBE).rest == [] by {
        ObjectEndsText(PROBE);
      }
      assert c == PROBE;
    } else {
      var s1 := Feed(s, [LBRACE]);
      FeedOne(s, LBRACE);
      var s2 := Feed(s1, [QUOTE]);
      FeedOne(s1, QUOTE);
      var s3 := Feed(s2, VERB);
      PlainWalk(s2, VERB);
      var s4 := Feed(s3, [QUOTE]);
      FeedOne(s3, QUOTE);
      QuotedWalk(s4, PROBE_END);
      FeedConcat(s3, [QUOTE], PROBE_END);
      FeedConcat(s2, VERB, [QUOTE] + PROBE_END);
      FeedConcat(s1, [QUOTE], VERB + ([QUOTE] + PROBE_END));
      FeedConcat(s, [LBRACE], [QUOTE] + (VERB + ([QUOTE] + PROBE_END)));
    }
  }

  /** Scanning is compositional after a text for every continuation exactly when that text
      leaves the scanner at depth 0 and outside a string. */
  lemma NeutralExactly(a: Text)
    ensures Neutral(a) <==> forall b :: Candidates(a + b) == Candidates(a) + Candidates(b)
  {
    if Neutral(a) {
      forall b
        ensures Candidates(a + b) == Candidates(a) + Candidates(b)
      {
        Composition(a, b);
      }
    } else {
      FeedSound(START, a);
      FeedConcat(START, a, PROBE);
      ProbeMissed(Feed(START, a));
      ProbeIsCandidate();
      assert Candidates(a + PROBE) != Candidates(a) + Candidates(PROBE);
    }
  }

  // ------------------------------------------------------------ whole replies

  /** Prose the scanner reads without finding anything or losing its place. */
  predicate Quiet(prose: Text) {
    Neutral(prose) && Candidates(prose) == []
  }

  /** One stretch of prose and the object text after it. */
  datatype Piece = Piece(prose: Text, chunk: Text)

  predicate IsReply(pieces: seq<Piece>, tail: Text) {
    (forall i :: 0 <= i < |pieces| ==> Quiet(pieces[i].prose) && IsObjectText(pieces[i].chunk)) && Quiet(tail)
  }

  function Reply(pieces: seq<Piece>, tail: Text): Text {
    if pieces == [] then tail
    else pieces[0].prose + (pieces[0].chunk + Reply(pieces[1..], tail))
  }

  /** The objects quoted in the reply that name a verb, in order. */
  function Proposals(pieces: seq<Piece>): seq<Value> {
    if pieces == [] then [] else Candidate(pieces[0].chunk) + Proposals(pieces[1..])
  }

  /** The scanner meets the grammar: in a reply made of quiet prose and JSON objects, the
      candidates are exactly the objects that name a verb. */
  lemma {:induction false} ScannerMeetsGrammar(pieces: seq<Piece>, tail: Text)
    requires IsReply(pieces, tail)
    ensures Candidates(Reply(pieces, tail)) == Proposals(pieces)
    ensures Neutral(Reply(pieces, tail))
  {
    if pieces != [] {
      var more := Reply(pieces[1..], tail);
      ScannerMeetsGrammar(pieces[1..], tail);
      ObjectNeutral(pieces[0].chunk);
      Composition(pieces[0].chunk, more);
      Composition(pieces[0].prose, pieces[0].chunk + more);
      assert [] + Proposals(pieces) == Proposals(pieces);
    }
  }

  // ------------------------------------------------------------ the decision

  datatype Proposal = Proposal(verb: Text, params: seq<Field>)

  datatype Refusal =
    | TooLong(characters: nat)
    | NoProposal
    | SeveralProposals(count: nat)
    | VerbNotAName
    | ParamsNotAMapping

  /** A verb that is a non-blank string, and params that are a dictionary, null or absent. */
  predicate WellShaped(v: Value) {
    var verb, params := Get(v, VERB), Get(v, PARAMS);
    && verb.Some? && verb.value.Str? && Strip(verb.value.s) != []
    && (params == None || params.value == Null || params.value.Obj?)
  }

  function ProposalOf(v: Value): Proposal
    requires WellShaped(v)
  {
    var params := Get(v, PARAMS);
    Proposal(Strip(Get(v, VERB).value.s), if params.Some? && params.value.Obj? then params.value.fields else [])
  }

  function Judge(reply: Text): Result<Proposal, Refusal> {
    var found := Candidates(reply);
    if |reply| > MAX_REPLY then Err(TooLong(|reply|))
    else if found == [] then Err(NoProposal)
    else if |found| > 1 then Err(SeveralProposals(|found|))
    else if WellShaped(found[0]) then Ok(ProposalOf(found[0]))
    else
      var verb := Get(found[0], VERB);
      if verb == None || !verb.value.Str? || Strip(verb.value.s) == [] then Err(VerbNotAName)
      else Err(ParamsNotAMapping)
  }

  /** What the documentation asks for of the one object offered: a verb that is a text and not
      blank, and params that are a dictionary, absent or null. The proposal is the verb without
      the white space around it, and those very params. */
  predicate Settles(v: Value, r: Result<Proposal, Refusal>) {
    match Get(v, Lit("verb"))
    case Some(Str(s)) =>
      if AllSpace(s) then r == Err(VerbNotAName)
      else
        (match Get(v, Lit("params"))
         case None => r == Ok(Proposal(Strip(s), []))
         case Some(Null) => r == Ok(Proposal(Strip(s), []))
         case Some(Obj(fs)) => r == Ok(Proposal(Strip(s), fs))
         case Some(_) => r == Err(ParamsNotAMapping))
    case _ => r == Err(VerbNotAName)
  }

  /** The answer to a reply of this length that makes these offers. */
  predicate Decides(length: nat, offers: seq<Value>, r: Result<Proposal, Refusal>) {
    if length > 65536 then r == Err(TooLong(length))
    else if |offers| == 0 then r == Err(NoProposal)
    else if |offers| == 1 then Settles(offers[0], r)
    else r == Err(SeveralProposals(|offers|))
  }

  lemma KeysSpelt()
    ensures VERB == Lit("verb") && PARAMS == Lit("params")
  {
  }

  lemma BlankExactly(s: Text)
    ensures Strip(s) == [] <==> AllSpace(s)
  {
    hide Strip;
    var i, j := StripShape(s);
    assert Strip(s) == [] ==> s == s[..i] + s[i..];
  }

  lemma JudgeDecides(reply: Text)
    ensures Decides(|reply|, Candidates(reply), Judge(reply))
  {
    hide Candidates, Strip, Lit, AllSpace;
    KeysSpelt();
    var found := Candidates(reply);
    if |found| == 1 && Get(found[0], VERB).Some? && Get(found[0], VERB).value.Str? {
      BlankExactly(Get(found[0], VERB).value.s);
    }
  }

  /** `parse` */
  method Parse(reply: Text) returns (r: Result<Proposal, Refusal>)
    ensures r == Judge(reply)
    ensures Decides(|reply|, Candidates(reply), r)
  {
    hide Settles, Candidates, Strip;
    JudgeDecides(reply);
    if |reply| > MAX_REPLY {
      return Err(TooLong(|reply|));
    }
    var found := FindCandidates(reply);
    if found == [] {
      return Err(NoProposal);
    }
    if |found| > 1 {
      return Err(SeveralProposals(|found|));
    }
    var proposal := found[0];
    var verb := Get(proposal, VERB);
    if verb == None || !verb.value.Str? || Strip(verb.value.s) == [] {
      return Err(VerbNotAName);
    }
    var params := Get(proposal, PARAMS);
    var fields := [];
    if params.Some? && params.value != Null {
      if !params.value.Obj? {
        return Err(ParamsNotAMapping);
      }
      fields := params.value.fields;
    }
    return Ok(Proposal(Strip(verb.value.s), fields));
  }

  /** The objects among the pieces that have the key `verb`, in order. */
  function Offered(pieces: seq<Piece>): seq<Value> {
    if pieces == [] then []
    else
      (match Loads(pieces[0].chunk)
       case Some(Obj(fs)) => if HasKey(fs, Lit("verb")) then [Obj(fs)] else []
       case _ => []) + Offered(pieces[1..])
  }

  lemma {:induction false} OfferedProposed(pieces: seq<Piece>)
    ensures Proposals(pieces) == Offered(pieces)
  {
    hide Loads, HasKey, Lit;
    KeysSpelt();
    if pieces != [] {
      OfferedProposed(pieces[1..]);
    }
  }

  /** On a reply of quiet prose and JSON objects: the answer depends on nothing but its length
      and the objects that name a verb, and is what the documentation says of them. */
  lemma ReplyDecided(pieces: seq<Piece>, tail: Text)
    requires IsReply(pieces, tail)
    ensures Decides(|Reply(pieces, tail)|, Offered(pieces), Judge(Reply(pieces, tail)))
  {
    hide Decides, Candidates, Judge, Offered, Proposals;
    ScannerMeetsGrammar(pieces, tail);
    OfferedProposed(pieces);
    JudgeDecides(Reply(pieces, tail));
  }

  /** A proposal comes out of such a reply exactly when the reply is short enough and just one
      object names a verb, and that one is well shaped. */
  lemma ParsesExactlyOne(pieces: seq<Piece>, tail: Text)
    requires IsReply(pieces, tail)
    ensures var reply, offers := Reply(pieces, tail), Proposals(pieces);
      && (Judge(reply).Ok? <==> |reply| <= MAX_REPLY && |offers| == 1 && WellShaped(offers[0]))
      && (Judge(reply).Ok? ==> Judge(reply).value == ProposalOf(offers[0]))
  {
    hide WellShaped, ProposalOf, Candidates;
    ScannerMeetsGrammar(pieces, tail);
  }

  /** Two offers are a refusal wherever they stand: nothing breaks the tie. */
  lemma NoTieBreak(a: Text, b: Text)
    requires Neutral(a) && Candidates(a) != [] && Candidates(b) != []
    ensures |a + b| <= MAX_REPLY ==> Judge(a + b) == Err(SeveralProposals(|Candidates(a)| + |Candidates(b)|))
    ensures Judge(a + b).Err?
  {
    hide Candidates;
    Composition(a, b);
  }

  /** Nor does position: swapping two neutral parts never changes a proposal. */
  lemma PositionIrrelevant(a: Text, b: Text)
    requires Neutral(a) && Neutral(b)
    ensures Judge(a + b).Ok? ==> Judge(b + a) == Judge(a + b)
  {
    hide Candidates, WellShaped, ProposalOf;
    Composition(a, b);
    Composition(b, a);
    if |Candidates(a) + Candidates(b)| == 1 {
      assert Candidates(a) == [] || Candidates(b) == [];
    }
  }

  // ------------------------------------------------------------ what the limit counts

  /** The number in the refusal, which it calls bytes, is the length of the reply in UTF-8
      exactly if the reply is ASCII. */
  lemma LimitCountsCharacters(reply: Text)
    requires |reply| > MAX_REPLY && Utf8.Encode(reply).Some?
    ensures Judge(reply) == Err(TooLong(|Utf8.Encode(reply).value|)) <==> Utf8.Ascii(reply)
  {
    hide Candidates, WellShaped, ProposalOf, Utf8.Ascii;
    Utf8.EncodedLength(reply);
  }

  function Repeat(c: CodePoint, n: nat): (t: Text)
    ensures |t| == n && forall i :: 0 <= i < n ==> t[i] == c
  {
    if n == 0 then [] else [c] + Repeat(c, n - 1)
  }

  lemma {:induction false} RepeatEncodes(n: nat)
    ensures Utf8.Encode(Repeat(0xE9, n)).Some? && |Utf8.Encode(Repeat(0xE9, n)).value| == 2 * n
  {
    if n > 0 {
      RepeatEncodes(n - 1);
      assert Repeat(0xE9, n)[1..] == Repeat(0xE9, n - 1);
    }
  }

  const ASK_VALUE := Obj([Field(VERB, Str([97]))])

  /** `{"verb":"a"}` */
  const ASK: Text := [LBRACE] + ([QUOTE] + (VERB + ([QUOTE] + [COLON, QUOTE, 97, QUOTE, RBRACE])))

  lemma AskPrints()
    ensures Print(ASK_VALUE, []) == ASK && |ASK| == 12
  {
    hide EscapeText;
    PlainEscape(VERB);
    PlainEscape([97]);
    var f := Field(VERB, Str([97]));
    assert Print(Str([97]), []) == [QUOTE, 97, QUOTE];
    assert PrintField(f, []) == [QUOTE] + (VERB + ([QUOTE] + [COLON, QUOTE, 97, QUOTE]));
    assert PrintFields([f], []) == PrintField(f, []);
  }

  lemma AskIsCandidate()
    ensures IsObjectText(ASK) && Candidate(ASK) == [ASK_VALUE] && WellShaped(ASK_VALUE) && Utf8.Ascii(ASK)
  {
    hide Dumps, Loads, Sorted, Joined, IsObjectText, Candidate, WellShaped, WellFormed, AllPairFree, ASK_VALUE;
    AskPrints();
    AskShape();
    RoundTripExact(ASK_VALUE, []);
    LoadsDumps(ASK_VALUE, []);
    PrintedObject(ASK_VALUE, []);
  }

  lemma AskShape()
    ensures WellShaped(ASK_VALUE) && WellFormed(ASK_VALUE) && AllPairFree(ASK_VALUE) && ASK_VALUE.Obj?
    ensures IsCandidate(ASK_VALUE) && Sorted(ASK_VALUE) == ASK_VALUE && Dumps(ASK_VALUE, []) == Print(ASK_VALUE, [])
    ensures Utf8.Ascii(ASK)
  {
    hide Print;
    assert ASK_VALUE.fields[0].key == VERB;
    assert PairFree(VERB) && PairFree([97]);
    AskVerb();
  }

  lemma AskVerb()
    ensures WellShaped(ASK_VALUE)
  {
    assert VERB[0] != PARAMS[0];
    StripTight([97]);
    var fs := ASK_VALUE.fields;
    assert fs[1..] == [];
  }

  /** A reply within the limit can be far longer than 64 KiB: the limit is on characters. */
  lemma {:induction false} LongReplyAccepted()
    ensures var reply := Repeat(0xE9, MAX_REPLY - 12) + ASK;
      Judge(reply).Ok? && Utf8.Encode(reply).Some? && |Utf8.Encode(reply).value| > MAX_REPLY
  {
    hide Repeat, Judge, Candidate, WellShaped, Feed, IsObjectText;
    var prose := Repeat(0xE9, MAX_REPLY - 12);
    AskPrints();
    AskIsCandidate();
    PlainWalk(START, prose);
    var pieces := [Piece(prose, ASK)];
    NothingQuiet();
    OnePiece(prose, ASK);
    ParsesExactlyOne(pieces, []);
    RepeatEncodes(MAX_REPLY - 12);
    Utf8.AsciiEncodes(ASK);
    Utf8.EncodeConcat(prose, ASK);
  }

  lemma NothingQuiet()
    ensures Quiet([])
  {
  }

  lemma OnePiece(prose: Text, chunk: Text)
    ensures Reply([Piece(prose, chunk)], []) == prose + chunk
    ensures Proposals([Piece(prose, chunk)]) == Candidate(chunk)
  {
    hide Candidate;
    assert [Piece(prose, chunk)][1..] == [];
    assert Reply([], []) == [] && Proposals([]) == [];
    assert prose + (chunk + []) == prose + chunk;
    assert Candidate(chunk) + [] == Candidate(chunk);
  }
}
