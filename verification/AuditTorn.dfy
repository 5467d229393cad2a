/** A write to the log that is cut short: what reading, and the next `record`, make of the
    line it leaves (engine/steward/steward-audit.py). */
module AuditTorn {
  import opened Texts
  import opened Json
  import opened JsonText
  import opened JsonCanonical
  import opened AuditLines
  import opened StewardAudit
  import opened AuditRuns
  import Scanner
  import Grammar = ScannerGrammar
  import Parser = StewardParse

  // ------------------------------------------------------------ an object ends at its last brace

  lemma {:induction false} PendingBound(s: Scanner.State, t: Text)
    ensures |Scanner.Feed(s, t).pending| <= |s.pending| + |t|
    decreases t
  {
    hide Scanner.Candidate;
    if t != [] {
      PendingBound(Scanner.Step(s, t[0]), t[1..]);
    }
  }

  /** All of an object's text but its last brace is one stretch inside braces. */
  lemma ObjectInner(chunk: Text)
    requires Parser.IsObjectText(chunk)
    ensures |chunk| > 1 && Scanner.Feed(Scanner.START, chunk[..|chunk| - 1]).pending == chunk[..|chunk| - 1]
  {
    hide Scanner.Feed, ParseMembers, Dict, Scanner.Candidate;
    var inner := Scanner.START.(depth := 1, pending := [LBRACE]);
    var body := Grammar.MembersScan(inner, chunk[1..]);
    Parser.ObjectEndsText(chunk);
    assert chunk == [LBRACE] + (body + [RBRACE]);
    assert chunk[..|chunk| - 1] == [LBRACE] + body;
    Scanner.FeedOne(Scanner.START, LBRACE);
    assert Scanner.START.pending + [LBRACE] == [LBRACE];
    Scanner.FeedConcat(Scanner.START, [LBRACE], body);
  }

  /** No proper part at the front of an object's text is balanced. */
  lemma {:induction false} FrontOpen(chunk: Text, n: nat)
    requires Parser.IsObjectText(chunk) && 0 < n < |chunk|
    ensures Scanner.Feed(Scanner.START, chunk[..n]).depth > 0
  {
    hide Scanner.Feed, Parser.IsObjectText;
    ObjectInner(chunk);
    var all := chunk[..|chunk| - 1];
    Scanner.FeedSound(Scanner.START, chunk[..n]);
    var s := Scanner.Feed(Scanner.START, chunk[..n]);
    assert all == chunk[..n] + all[n..];
    Scanner.FeedConcat(Scanner.START, chunk[..n], all[n..]);
    PendingBound(s, all[n..]);
    assert s.depth == 0 ==> s.pending == [];
  }

  /** What reads as JSON between an open brace and a last character that is not a space. */
  lemma BracedReads(q: Text)
    requires q != [] && q[0] == LBRACE && !IsJsonSpace(q[|q| - 1]) && Loads(q).Some?
    ensures Parser.IsObjectText(q)
  {
    hide ParseMembers, Dict;
    var inner := Scanner.START.(depth := 1, pending := [LBRACE]);
    var body := Grammar.MembersScan(inner, q[1..]);
    var rest := ParseMembers(q[1..]).rest;
    assert q == [LBRACE] + (body + [RBRACE] + rest);
    assert rest != [] ==> q[|q| - 1] == rest[|rest| - 1];
    Parser.SkipsToNothing(rest);
  }

  lemma {:induction false} FrontNotJson(chunk: Text, n: nat)
    requires Parser.IsObjectText(chunk) && 0 < n < |chunk|
    ensures Strip(chunk[..n]) != [] && Loads(Strip(chunk[..n])) == None
  {
    hide Loads, Scanner.Feed;
    var front := chunk[..n];
    var j := StripFront(front);
    var q := chunk[..j];
    assert front[..j] == q;
    if Loads(q).Some? {
      BracedReads(q);
      Parser.ObjectNeutral(q);
      FrontOpen(chunk, j);
    }
  }

  /** Two objects on one line are not JSON. */
  lemma {:induction false} TwoNotJson(a: Text, b: Text)
    requires Parser.IsObjectText(a) && Parser.IsObjectText(b)
    ensures Loads(a + b) == None
  {
    hide Loads, Scanner.Feed;
    if Loads(a + b).Some? {
      BracedReads(a + b);
      Parser.ObjectNeutral(a);
      assert (a + b)[..|a|] == a;
      FrontOpen(a + b, |a|);
    }
  }

  // ------------------------------------------------------------ reading a torn log

  /** What follows a readable, closed log without a line end is read as one more line. */
  lemma OpenRead(text: Text, part: Text)
    requires Closed(text) && ReadText(text).Some? && OneLine(part) && part != []
    ensures ReadText(text + part) ==
      if LineEntries(part).Some? then Some(ReadText(text).value + LineEntries(part).value) else None
  {
    hide Lines, ReadLines, LineEntries, IsBreak;
    assert part[0] == part[..1][0] && !IsBreak(part[0]);
    LinesAppend(text, part);
    OpenLine(part);
    ReadLinesAppend(Lines(text), [part]);
    ReadLinesOne(part);
  }

  /** The text one `record` appends. */
  function LineOf(r: Request, prev: Text): Text {
    Dumps(Entry(r, prev), [])
  }

  lemma LineIsObject(r: Request, prev: Text)
    requires ValidRequest(r)
    ensures var line := LineOf(r, prev);
      Parser.IsObjectText(line) && Printable(line) && Loads(line) == Some(Stored(r, prev))
  {
    hide Dumps, Entry, Printable, Stored, Loads;
    EntryWellFormed(r, prev);
    LineReads(r, prev);
    IsEntry(r, prev);
    Parser.PrintedObject(Entry(r, prev), []);
  }

  lemma IsEntry(r: Request, prev: Text)
    ensures Entry(r, prev).Obj?
  {
  }

  lemma PrintableLine(t: Text, n: nat)
    requires Printable(t) && n <= |t|
    ensures OneLine(t[..n])
  {
  }

  lemma Tight(line: Text)
    requires Parser.IsObjectText(line)
    ensures Strip(line) == line
  {
    StripTight(line);
  }

  /** The file after a `record` whose write kept only its first `n` characters. */
  function TornText(hash: Hash, text: Text, r: Request, n: nat): Text
    requires ReadText(text).Some?
  {
    var write := LineOf(r, LastDigest(hash, ReadText(text).value)) + [NEWLINE];
    text + if n < |write| then write[..n] else write
  }

  function WriteLength(hash: Hash, text: Text, r: Request): nat
    requires ReadText(text).Some?
  {
    |LineOf(r, LastDigest(hash, ReadText(text).value))|
  }

  /** A write cut short leaves the log readable exactly if nothing of the line was written or
      no more than its line end is missing; otherwise neither `verify` nor any later
      `record` can read it. */
  lemma {:induction false} TornExact(hash: Hash, text: Text, r: Request, n: nat)
    requires Healthy(hash, text) && ValidRequest(r)
    ensures ReadText(TornText(hash, text, r, n)).Some? <==> n == 0 || n >= WriteLength(hash, text, r)
  {
    hide ReadText, Loads, LineOf, Strip, Printable, LastDigest, Parser.IsObjectText, Intact, ValidRequest;
    var prev := LastDigest(hash, ReadText(text).value);
    var line := LineOf(r, prev);
    LineIsObject(r, prev);
    ObjectEnds(line);
    if n == 0 {
      assert TornText(hash, text, r, n) == text;
    } else if n <= |line| {
      assert (line + [NEWLINE])[..n] == line[..n];
      PrintableLine(line, n);
      OpenRead(text, line[..n]);
      if n < |line| {
        FrontNotJson(line, n);
      } else {
        assert line[..n] == line;
        Tight(line);
      }
    } else {
      AppendOne(text, line);
      assert TornText(hash, text, r, n) == text + line + [NEWLINE];
    }
  }

  lemma ObjectEnds(line: Text)
    requires Parser.IsObjectText(line)
    ensures line != [] && line[0] != 32 && line[|line| - 1] != 32
  {
  }

  /** After the next `record` the log is readable exactly if the cut write left nothing or
      everything: a lost line end puts two entries on one line, which no reader accepts. */
  lemma {:induction false} NextRecordExact(hash: Hash, text: Text, r: Request, n: nat, next: Request)
    requires PrintsDigests(hash) && Healthy(hash, text) && ValidRequest(r) && ValidRequest(next)
    ensures ReadText(Recorded(hash, TornText(hash, text, r, n), next)).Some? <==>
      n == 0 || n > WriteLength(hash, text, r)
  {
    hide ReadText, Loads, LineOf, Strip, Printable, LastDigest, Intact, ValidRequest, PrintsDigests, Parser.IsObjectText, Closed, Entry, Dumps;
    var torn := TornText(hash, text, r, n);
    var prev := LastDigest(hash, ReadText(text).value);
    var line := LineOf(r, prev);
    TornExact(hash, text, r, n);
    if n == 0 {
      assert torn == text;
      RecordKeepsHealth(hash, text, next);
    } else if n < |line| {
      assert Recorded(hash, torn, next) == torn;
    } else if n == |line| {
      assert (line + [NEWLINE])[..n] == line;
      TwoOnALine(hash, text, line, r, prev, next);
    } else {
      assert torn == text + line + [NEWLINE];
      IsRecorded(hash, text, r);
      RecordKeepsHealth(hash, text, r);
      RecordKeepsHealth(hash, torn, next);
    }
  }

  lemma IsRecorded(hash: Hash, text: Text, r: Request)
    requires ReadText(text).Some?
    ensures Recorded(hash, text, r) == text + LineOf(r, LastDigest(hash, ReadText(text).value)) + [NEWLINE]
  {
  }

  lemma {:induction false} TwoOnALine(hash: Hash, text: Text, line: Text, r: Request, prev: Text, next: Request)
    requires Healthy(hash, text) && ValidRequest(r) && ValidRequest(next) && line == LineOf(r, prev)
    requires ReadText(text + line).Some?
    ensures ReadText(Recorded(hash, text + line, next)) == None
  {
    hide ReadText, Loads, Strip, Printable, LastDigest, Intact, ValidRequest, Parser.IsObjectText, Closed, LineOf, Lines, LineEntries, OneLine;
    var prev2 := LastDigest(hash, ReadText(text + line).value);
    var second := LineOf(next, prev2);
    IsRecorded(hash, text + line, next);
    LineIsObject(r, prev);
    LineIsObject(next, prev2);
    TwoNotJson(line, second);
    var both := line + second;
    PrintableConcat(line, second);
    ObjectEnds(line);
    TwoTight(line, second);
    PrintableLine(both, |both|);
    assert both[..|both|] == both;
    LineThenEnd(text, both);
    assert text + line + second + [NEWLINE] == text + (both + [NEWLINE]);
    NotAnEntryLine(both);
  }

  lemma NotAnEntryLine(both: Text)
    requires Strip(both) == both && both != [] && Loads(both) == None
    ensures LineEntries(both) == None
  {
  }

  lemma TwoTight(a: Text, b: Text)
    requires Parser.IsObjectText(a) && Parser.IsObjectText(b)
    ensures Strip(a + b) == a + b
  {
    StripTight(a + b);
  }

  lemma LineThenEnd(text: Text, line: Text)
    requires Closed(text) && ReadText(text).Some? && OneLine(line) && line != []
    ensures LineEntries(line) == None ==> ReadText(text + (line + [NEWLINE])) == None
  {
    hide Lines, ReadLines, LineEntries, IsBreak;
    assert line[0] == line[..1][0] && !IsBreak(line[0]);
    LinesAppend(text, line + [NEWLINE]);
    LineAlone(line);
    ReadLinesAppend(Lines(text), [line]);
    ReadLinesOne(line);
  }
}
