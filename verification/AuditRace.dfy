/** Calls of `record` that overlap. A call reads the log, and later appends its line in one
    write; nothing keeps another call from appending in between (steward-audit.py). */
module AuditRace {
  import opened Texts
  import opened Json
  import opened JsonText
  import opened JsonCanonical
  import opened JsonParsed
  import opened AuditLines
  import opened StewardAudit
  import opened AuditChain
  import opened AuditRuns

  /** A call, by its number, reads the log; or it appends its line and is over. */
  datatype Event = Begins(call: nat) | Ends(call: nat, request: Request)

  function Count(events: seq<Event>): nat {
    if events == [] then 0
    else Count(events[..|events| - 1]) + (if events[|events| - 1].Ends? then 1 else 0)
  }

  /** For every call under way, how many lines had been appended when it read the log. */
  function Begun(events: seq<Event>): map<nat, nat> {
    if events == [] then map[]
    else
      var front := events[..|events| - 1];
      match events[|events| - 1]
      case Begins(c) => Begun(front)[c := Count(front)]
      case Ends(c, _) => Begun(front) - {c}
  }

  /** Only a call under way can end. */
  predicate Sane(events: seq<Event>) {
    events == [] ||
    (Sane(events[..|events| - 1]) &&
     match events[|events| - 1]
     case Begins(c) => true
     case Ends(c, _) => c in Begun(events[..|events| - 1]))
  }

  /** No line is appended by another call between a call's reading and its own append. */
  predicate Serial(events: seq<Event>)
    requires Sane(events)
  {
    events == [] ||
    (Serial(events[..|events| - 1]) &&
     match events[|events| - 1]
     case Begins(c) => true
     case Ends(c, _) => Begun(events[..|events| - 1])[c] == Count(events[..|events| - 1]))
  }

  /** The file, and the digest each call under way holds from its reading. */
  datatype Race = Race(text: Text, held: map<nat, Text>)

  function Step(hash: Hash, s: Race, e: Event): Race {
    match e
    case Begins(c) =>
      (match ReadText(s.text)
       case None => s
       case Some(entries) => s.(held := s.held[c := LastDigest(hash, entries)]))
    case Ends(c, r) =>
      if c in s.held then Race(s.text + Dumps(Entry(r, s.held[c]), []) + [NEWLINE], s.held - {c}) else s
  }

  function RunRace(hash: Hash, text: Text, events: seq<Event>): Race {
    if events == [] then Race(text, map[])
    else Step(hash, RunRace(hash, text, events[..|events| - 1]), events[|events| - 1])
  }

  ghost predicate ValidEvents(events: seq<Event>) {
    forall i :: 0 <= i < |events| && events[i].Ends? ==> ValidRequest(events[i].request)
  }

  /** A call that nothing comes between is the `record` of the sequential log. */
  lemma AloneIsRecord(hash: Hash, s: Race, c: nat, r: Request)
    requires ReadText(s.text).Some?
    ensures Step(hash, Step(hash, s, Begins(c)), Ends(c, r)) == Race(Recorded(hash, s.text, r), s.held - {c})
  {
    hide ReadText, Dumps, Entry, LastDigest;
  }

  // ------------------------------------------------------------ what a race keeps

  /** What each call holds is the digest after the entry that was last when it read. */
  ghost predicate Holds(hash: Hash, entries: seq<Value>, base: nat, held: map<nat, Text>, begun: map<nat, nat>) {
    && held.Keys == begun.Keys
    && forall c :: c in held ==> base + begun[c] <= |entries| && held[c] == Previous(hash, entries, base + begun[c])
  }

  ghost predicate Tracks(hash: Hash, text: Text, events: seq<Event>, s: Race) {
    && NoSurrogates(s.text) && Closed(s.text) && ReadText(text).Some? && ReadText(s.text).Some?
    && ReadText(text).value <= ReadText(s.text).value
    && |ReadText(s.text).value| == |ReadText(text).value| + Count(events)
    && Holds(hash, ReadText(s.text).value, |ReadText(text).value|, s.held, Begun(events))
  }

  lemma HoldsMore(hash: Hash, entries: seq<Value>, e: Value, base: nat, held: map<nat, Text>, begun: map<nat, nat>, c: nat)
    requires Holds(hash, entries, base, held, begun)
    ensures Holds(hash, entries + [e], base, held - {c}, begun - {c})
  {
    hide Digest;
  }

  lemma HoldsNew(hash: Hash, entries: seq<Value>, base: nat, held: map<nat, Text>, begun: map<nat, nat>, c: nat)
    requires Holds(hash, entries, base, held, begun) && base <= |entries|
    ensures Holds(hash, entries, base, held[c := LastDigest(hash, entries)], begun[c := |entries| - base])
  {
    hide Digest;
  }

  lemma PreviousPrintable(hash: Hash, entries: seq<Value>, i: nat)
    requires PrintsDigests(hash) && i <= |entries|
    ensures Printable(Previous(hash, entries, i))
  {
  }

  lemma NoSurrogatesConcat(a: Text, b: Text)
    requires NoSurrogates(a) && NoSurrogates(b)
    ensures NoSurrogates(a + b)
  {
  }

  /** One append, whatever digest its line carries: the log stays readable and gains the entry. */
  lemma AppendReads(text: Text, r: Request, prev: Text)
    requires NoSurrogates(text) && Closed(text) && ReadText(text).Some? && ValidRequest(r) && Printable(prev)
    ensures var after := text + Dumps(Entry(r, prev), []) + [NEWLINE];
      && NoSurrogates(after) && Closed(after)
      && ReadText(after) == Some(ReadText(text).value + [Stored(r, prev)])
      && Get(Stored(r, prev), PREV) == Some(Str(prev))
  {
    hide ReadText, Loads, Dumps, Entry, Stored, Printable, NoSurrogates, Closed;
    var line := Dumps(Entry(r, prev), []);
    LineReads(r, prev);
    AppendOne(text, line);
    StoredLinks(r, prev);
    PrintableClean(line);
    NoSurrogatesConcat(text, line);
    NewlineClean();
    NoSurrogatesConcat(text + line, [NEWLINE]);
  }

  lemma NewlineClean()
    ensures NoSurrogates([NEWLINE])
  {
  }

  lemma BeginsTracks(hash: Hash, text: Text, front: seq<Event>, c: nat, s: Race)
    requires Tracks(hash, text, front, s)
    ensures Tracks(hash, text, front + [Begins(c)], Step(hash, s, Begins(c)))
    ensures Step(hash, s, Begins(c)).text == s.text
  {
    hide ReadText, Previous, NoSurrogates, Closed, LastDigest;
    assert (front + [Begins(c)])[..|front|] == front;
    HoldsNew(hash, ReadText(s.text).value, |ReadText(text).value|, s.held, Begun(front), c);
  }

  lemma EndsTracks(hash: Hash, text: Text, front: seq<Event>, c: nat, r: Request, s: Race)
    requires PrintsDigests(hash) && Tracks(hash, text, front, s)
    requires c in Begun(front) && ValidRequest(r)
    ensures c in s.held
    ensures Tracks(hash, text, front + [Ends(c, r)], Step(hash, s, Ends(c, r)))
    ensures ReadText(Step(hash, s, Ends(c, r)).text) == Some(ReadText(s.text).value + [Stored(r, s.held[c])])
  {
    hide ReadText, Previous, Stored, PrintsDigests, NoSurrogates, Closed, ValidRequest, Dumps, Entry;
    assert (front + [Ends(c, r)])[..|front|] == front;
    var base, entries := |ReadText(text).value|, ReadText(s.text).value;
    PreviousPrintable(hash, entries, base + Begun(front)[c]);
    AppendReads(s.text, r, s.held[c]);
    HoldsMore(hash, entries, Stored(r, s.held[c]), base, s.held, Begun(front), c);
  }

  lemma StepTracks(hash: Hash, text: Text, front: seq<Event>, e: Event, s: Race)
    requires PrintsDigests(hash) && Tracks(hash, text, front, s)
    requires e.Ends? ==> e.call in Begun(front) && ValidRequest(e.request)
    ensures Tracks(hash, text, front + [e], Step(hash, s, e))
    ensures e.Begins? ==> Step(hash, s, e).text == s.text
    ensures e.Ends? ==> e.call in s.held
    ensures e.Ends? ==>
      ReadText(Step(hash, s, e).text) == Some(ReadText(s.text).value + [Stored(e.request, s.held[e.call])])
  {
    hide Tracks, Step, ReadText, Stored, PrintsDigests, ValidRequest, Begun;
    match e
    case Begins(c) => BeginsTracks(hash, text, front, c, s);
    case Ends(c, r) => EndsTracks(hash, text, front, c, r, s);
  }

  /** Whatever the overlap, every line that was appended can be read back, in order. */
  lemma {:induction false} RaceTracks(hash: Hash, text: Text, events: seq<Event>)
    requires PrintsDigests(hash) && NoSurrogates(text) && Healthy(hash, text)
    requires Sane(events) && ValidEvents(events)
    ensures Tracks(hash, text, events, RunRace(hash, text, events))
  {
    hide ReadText, NoSurrogates, Closed, Intact, PrintsDigests, Step;
    if events != [] {
      var front, last := events[..|events| - 1], events[|events| - 1];
      assert front + [last] == events;
      assert forall i :: 0 <= i < |front| ==> front[i] == events[i];
      RaceTracks(hash, text, front);
      StepTracks(hash, text, front, last, RunRace(hash, text, front));
    }
  }

  // ------------------------------------------------------------ when the chain survives

  /** Appending an entry that links to an earlier place keeps the chain exactly when that
      place is the last one. */
  lemma {:induction false} GrowExact(hash: Hash, entries: seq<Value>, e: Value, at: nat)
    requires CleanEntries(entries) && at <= |entries| && Get(e, PREV) == Some(Str(Previous(hash, entries, at)))
    requires !Collision(hash, entries, entries) && !GenesisHit(hash, entries)
    ensures Intact(hash, entries + [e]) <==> Intact(hash, entries) && at == |entries|
  {
    hide Digest, Get, Collision, GenesisHit, CleanEntries;
    var more := entries + [e];
    assert more[..|entries|] == entries;
    if Intact(hash, more) {
      PrefixIntact(hash, more, |entries|);
      assert LinkedAt(hash, more, |entries|);
      assert Previous(hash, more, |entries|) == Previous(hash, entries, |entries|);
      if at < |entries| {
        LinksDiffer(hash, entries, at, |entries|);
      }
    }
    if Intact(hash, entries) && at == |entries| {
      IntactGrows(hash, entries, e);
    }
  }

  /** What overlapping calls leave verifies exactly if none of them appended between another's
      reading and its append, unless the hash fails on the very entries of the log. */
  lemma {:induction false} RaceExact(hash: Hash, text: Text, events: seq<Event>)
    requires PrintsDigests(hash) && NoSurrogates(text) && Healthy(hash, text)
    requires Sane(events) && ValidEvents(events)
    ensures ReadText(RunRace(hash, text, events).text).Some?
    ensures var entries := ReadText(RunRace(hash, text, events).text).value;
      !Collision(hash, entries, entries) && !GenesisHit(hash, entries) ==>
        (Intact(hash, entries) <==> Serial(events))
  {
    hide ReadText, Collision, GenesisHit, Intact, Step, Stored, PrintsDigests, NoSurrogates, Get, ValidRequest;
    RaceTracks(hash, text, events);
    if events != [] {
      var front, last := events[..|events| - 1], events[|events| - 1];
      assert front + [last] == events;
      assert forall i :: 0 <= i < |front| ==> front[i] == events[i];
      RaceTracks(hash, text, front);
      RaceExact(hash, text, front);
      var s := RunRace(hash, text, front);
      StepTracks(hash, text, front, last, s);
      if last.Ends? {
        RaceStep(hash, text, front, last, s);
      }
    }
  }

  lemma {:induction false} RaceStep(hash: Hash, text: Text, front: seq<Event>, last: Event, s: Race)
    requires PrintsDigests(hash) && Tracks(hash, text, front, s) && Sane(front)
    requires last.Ends? && last.call in Begun(front) && ValidRequest(last.request)
    requires var entries := ReadText(s.text).value;
      !Collision(hash, entries, entries) && !GenesisHit(hash, entries) ==> (Intact(hash, entries) <==> Serial(front))
    ensures last.call in s.held
    ensures var entries := ReadText(s.text).value + [Stored(last.request, s.held[last.call])];
      !Collision(hash, entries, entries) && !GenesisHit(hash, entries) ==>
        (Intact(hash, entries) <==> Serial(front) && Begun(front)[last.call] == Count(front))
  {
    hide ReadText, Collision, GenesisHit, Intact, Stored, PrintsDigests, NoSurrogates, Get, Previous, Printable;
    var entries, base := ReadText(s.text).value, |ReadText(text).value|;
    var prev := s.held[last.call];
    var more := entries + [Stored(last.request, prev)];
    assert more[..|entries|] == entries;
    HitsGrow(hash, more, more, |entries|, |entries|);
    PreviousPrintable(hash, entries, base + Begun(front)[last.call]);
    StoredLinks(last.request, prev);
    ReadTextClean(s.text);
    if !Collision(hash, entries, entries) && !GenesisHit(hash, entries) {
      GrowExact(hash, entries, Stored(last.request, prev), base + Begun(front)[last.call]);
    }
  }

  // ------------------------------------------------------------ one call after another

  /** Each call appends before the next one reads. */
  function InTurn(rs: seq<Request>): seq<Event> {
    if rs == [] then [] else InTurn(rs[..|rs| - 1]) + [Begins(0), Ends(0, rs[|rs| - 1])]
  }

  lemma {:induction false} RecordSnoc(hash: Hash, text: Text, rs: seq<Request>)
    requires rs != []
    ensures RecordAll(hash, text, rs) == Recorded(hash, RecordAll(hash, text, rs[..|rs| - 1]), rs[|rs| - 1])
    decreases rs
  {
    hide Recorded;
    var front := rs[..|rs| - 1];
    if |rs| > 1 {
      RecordSnoc(hash, Recorded(hash, text, rs[0]), rs[1..]);
      assert rs[1..][..|rs| - 2] == front[1..];
    } else {
      var nothing: seq<Request> := [];
      assert rs[1..] == nothing && front == nothing;
    }
  }

  lemma RaceSnoc(hash: Hash, text: Text, events: seq<Event>, a: Event, b: Event)
    ensures RunRace(hash, text, events + [a, b]) == Step(hash, Step(hash, RunRace(hash, text, events), a), b)
  {
    hide Step;
    assert (events + [a, b])[..|events| + 1] == events + [a];
    assert (events + [a])[..|events|] == events;
  }

  /** Calls that take turns are the sequential log: the race adds nothing of its own. */
  lemma {:induction false} TurnsAreARun(hash: Hash, text: Text, rs: seq<Request>)
    requires PrintsDigests(hash) && Healthy(hash, text)
    requires forall i :: 0 <= i < |rs| ==> ValidRequest(rs[i])
    ensures RunRace(hash, text, InTurn(rs)) == Race(RecordAll(hash, text, rs), map[])
    decreases |rs|
  {
    hide Step, Recorded, RecordAll, ReadText, Healthy, PrintsDigests, ValidRequest, RunRace;
    if rs == [] {
      NoTurns(hash, text);
    } else {
      var front, last := rs[..|rs| - 1], rs[|rs| - 1];
      TurnsAreARun(hash, text, front);
      RunKeepsHealth(hash, text, front);
      HealthyReads(hash, RecordAll(hash, text, front));
      RaceSnoc(hash, text, InTurn(front), Begins(0), Ends(0, last));
      AloneIsRecord(hash, Race(RecordAll(hash, text, front), map[]), 0, last);
      RecordSnoc(hash, text, rs);
    }
  }

  lemma NoTurns(hash: Hash, text: Text)
    ensures RunRace(hash, text, InTurn([])) == Race(RecordAll(hash, text, []), map[])
  {
  }

  /** The shortest schedule that fails: two calls that both read before either appends. */
  lemma {:induction false} OverlapBreaks(hash: Hash, text: Text, r: Request, q: Request)
    requires PrintsDigests(hash) && NoSurrogates(text) && Healthy(hash, text) && ValidRequest(r) && ValidRequest(q)
    ensures var events := [Begins(0), Begins(1), Ends(0, r), Ends(1, q)];
      var after := ReadText(RunRace(hash, text, events).text);
      after.Some? && (Intact(hash, after.value) ==>
        Collision(hash, after.value, after.value) || GenesisHit(hash, after.value))
  {
    hide ReadText, Collision, GenesisHit, Intact, PrintsDigests, NoSurrogates, ValidRequest, RunRace, Healthy;
    var events := [Begins(0), Begins(1), Ends(0, r), Ends(1, q)];
    OverlapNotSerial(r, q);
    RaceExact(hash, text, events);
  }

  lemma OverlapNotSerial(r: Request, q: Request)
    ensures var events := [Begins(0), Begins(1), Ends(0, r), Ends(1, q)];
      Sane(events) && !Serial(events)
  {
    var a, b, c := [Begins(0)], [Begins(0), Begins(1)], [Begins(0), Begins(1), Ends(0, r)];
    var events := c + [Ends(1, q)];
    assert a[..0] == [] && b[..1] == a && c[..2] == b && events[..3] == c;
    assert Count(a) == 0 && Count(b) == 0 && Count(c) == 1;
    assert Begun(a) == map[0 := 0] && Begun(b) == map[0 := 0, 1 := 0];
    assert Begun(c)[1] == 0;
    assert events == [Begins(0), Begins(1), Ends(0, r), Ends(1, q)];
  }
}
