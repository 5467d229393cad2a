/** Whole runs of the download: calls that complete and calls killed at any moment, first
    against any server, then against an honest one. */
module DownloadRuns {
  import opened Texts
  import opened Bytes
  import opened Download

  /** One call that runs to its end, or one killed after some number of file operations. */
  datatype Step = Completed(a: Attempt) | Killed(a: Attempt, operations: nat)

  function Next(hash: Hash, want: Text, f: Files, s: Step): Files {
    match s
    case Completed(a) => After(hash, want, f, a).0
    case Killed(a, n) =>
      var moments := Moments(hash, want, f, a);
      if n == 0 || moments == [] then f
      else moments[if n < |moments| then n - 1 else |moments| - 1]
  }

  function Run(hash: Hash, want: Text, f: Files, steps: seq<Step>): Files
    decreases steps
  {
    if steps == [] then f else Run(hash, want, Next(hash, want, f, steps[0]), steps[1..])
  }

  /** A completed call ends in its last moment. */
  lemma EndsInLastMoment(hash: Hash, want: Text, f: Files, a: Attempt)
    ensures var moments := Moments(hash, want, f, a);
      After(hash, want, f, a).0 == if moments == [] then f else moments[|moments| - 1]
  {
    hide Delivery;
    if f.dest == None && Room(f, a) && a.answer.Response? {
      WritesEnd(Base(Kept(f, a), a), Delivery(a.answer.blocks));
    }
  }

  lemma {:induction false} WritesEnd(base: Bytes, blocks: seq<Bytes>)
    ensures var w := Writes(base, blocks);
      if w == [] then base + Flatten(blocks) == base
      else w[|w| - 1] == Files(None, Some(base + Flatten(blocks)))
    decreases blocks
  {
    if blocks != [] {
      WritesEnd(base + blocks[0], blocks[1..]);
      assert base + blocks[0] + Flatten(blocks[1..]) == base + Flatten(blocks);
      assert base + blocks[0] == base + blocks[0] + [];
    }
  }

  /** Each write leaves the base extended by a prefix of the data. */
  lemma {:induction false} WritesGrow(base: Bytes, blocks: seq<Bytes>, m: Files)
    requires m in Writes(base, blocks)
    ensures m.dest == None && m.part.Some? && base <= m.part.value <= base + Flatten(blocks)
    decreases blocks
  {
    if m != Writes(base, blocks)[0] {
      assert m in Writes(base, blocks)[1..];
      WritesGrow(base + blocks[0], blocks[1..], m);
    }
    assert base + blocks[0] + Flatten(blocks[1..]) == base + Flatten(blocks);
  }

  // ------------------------------------------------------------ any server

  /** The destination is what it was, or it was absent and now matches the digest. */
  predicate Safe(hash: Hash, want: Text, before: Files, after: Files) {
    after.dest == before.dest || (before.dest == None && after.dest.Some? && hash(after.dest.value) == want)
  }

  lemma EveryMomentSafe(hash: Hash, want: Text, f: Files, a: Attempt, m: Files)
    requires m in Moments(hash, want, f, a)
    ensures Safe(hash, want, f, m)
  {
    hide Delivery, Flatten, Writes;
    if m.dest.Some? && a.answer.Response? {
      if m in Writes(Base(Kept(f, a), a), Delivery(a.answer.blocks)) {
        WritesGrow(Base(Kept(f, a), a), Delivery(a.answer.blocks), m);
      }
    }
  }

  lemma StepSafe(hash: Hash, want: Text, f: Files, s: Step)
    ensures Safe(hash, want, f, Next(hash, want, f, s))
    ensures f.dest.Some? ==> Next(hash, want, f, s) == f
  {
    hide After, Moments;
    EndsInLastMoment(hash, want, f, s.a);
    var moments := Moments(hash, want, f, s.a);
    if Next(hash, want, f, s) != f {
      assert Next(hash, want, f, s) in moments;
      EveryMomentSafe(hash, want, f, s.a, Next(hash, want, f, s));
      DestStops(hash, want, f, s.a);
    }
  }

  lemma DestStops(hash: Hash, want: Text, f: Files, a: Attempt)
    ensures f.dest.Some? ==> Moments(hash, want, f, a) == []
  {
  }

  /** Whatever the server sends, over any calls, killed or not: the destination stays what it
      was, or goes from absent to content that matches; and once there it never changes. */
  lemma {:induction false} RunSafe(hash: Hash, want: Text, f: Files, steps: seq<Step>)
    ensures Safe(hash, want, f, Run(hash, want, f, steps))
    ensures f.dest.Some? ==> Run(hash, want, f, steps) == f
    decreases steps
  {
    hide Next;
    if steps != [] {
      StepSafe(hash, want, f, steps[0]);
      RunSafe(hash, want, Next(hash, want, f, steps[0]), steps[1..]);
    }
  }

  // ------------------------------------------------------------ what a call reports

  /** The size is unknown, or what is still missing and a twentieth more fits on the volume. */
  predicate Room(f: Files, a: Attempt) {
    var already := if f.part.Some? then |f.part.value| else 0;
    a.size == 0 || 20 * a.free >= 21 * (a.size - already)
  }

  lemma RoomExact(f: Files, a: Attempt)
    ensures Room(f, a) <==> !TooLittleSpace(f, a)
  {
  }

  /** Every outcome, and exactly when it is reported: an existing file is checked and never
      replaced; a download is refused for lack of space only if what is missing does not fit;
      and what the server then does decides the rest. */
  lemma OutcomeExact(hash: Hash, want: Text, f: Files, a: Attempt)
    ensures var (after, outcome) := After(hash, want, f, a);
      && (outcome == WrongFileThere <==> f.dest.Some? && hash(f.dest.value) != want)
      && (outcome == NotEnoughSpace <==> f.dest == None && !Room(f, a))
      && (forall code :: outcome == ServerRefused(code) <==> f.dest == None && Room(f, a) && a.answer == HttpError(code))
      && (outcome == Stopped <==>
            f.dest == None && Room(f, a) && (a.answer.NoAnswer? || (a.answer.Response? && Broke(a.answer))))
      && (outcome == Delivered <==> after.dest.Some? && hash(after.dest.value) == want)
      && (f.dest.Some? || !Room(f, a) ==> after == f)
  {
    hide Flatten, Delivery, Broke;
    RoomExact(f, a);
  }

  /** What is asked for: the rest after the part, or all of it if there is no part or it is
      longer than the whole file, which it then cannot be a part of. */
  lemma RangeExact(f: Files, a: Attempt)
    ensures ResumeFrom(f, a) ==
      match f.part
      case None => 0
      case Some(part) => if a.size > 0 && |part| > a.size then 0 else |part|
  {
  }

  /** A call reports success exactly when the destination now matches, and after a digest
      failure nothing is left to resume: the next request carries no Range. */
  lemma OutcomeTells(hash: Hash, want: Text, f: Files, a: Attempt, next: Attempt)
    ensures var (after, outcome) := After(hash, want, f, a);
      && (outcome == Delivered <==> after.dest.Some? && hash(after.dest.value) == want)
      && (outcome == Damaged ==> after.part == None && ResumeFrom(after, next) == 0)
  {
    hide Flatten, Delivery;
  }

  /** Once a response has begun, a part survives the call exactly when the connection raised:
      a stream that merely ends early costs everything received so far. */
  lemma PartKeptExactly(hash: Hash, want: Text, f: Files, a: Attempt)
    requires f.dest == None && Room(f, a) && a.answer.Response?
    ensures After(hash, want, f, a).0.part.Some? <==> Broke(a.answer)
  {
  }

  // ------------------------------------------------------------ an honest server

  /** What was sent is the part of the body asked for, or the whole body, cut anywhere by a
      raised error; the stream ends by itself only when all of it was sent. */
  predicate HonestData(wanted: Bytes, a: Answer)
    requires a.Response?
  {
    Data(a) <= wanted && (!Broke(a) ==> Data(a) == wanted)
  }

  predicate Honest(body: Bytes, f: Files, a: Attempt) {
    a.answer.Response? ==>
      if ResumeFrom(f, a) > 0 && a.answer.status == 206 then
        ResumeFrom(f, a) < |body| && HonestData(body[ResumeFrom(f, a)..], a.answer)
      else HonestData(body, a.answer)
  }

  /** The caller's expected size is unknown or right. */
  predicate SizeRight(body: Bytes, a: Attempt) {
    a.size == 0 || a.size == |body|
  }

  /** Either delivered, or a part that is a prefix of the body. */
  predicate OnTheWay(body: Bytes, f: Files) {
    (f.dest == None && (f.part.Some? ==> f.part.value <= body)) || f.dest == Some(body)
  }

  lemma HonestBase(body: Bytes, f: Files, a: Attempt)
    requires f.dest == None && OnTheWay(body, f) && SizeRight(body, a) && Honest(body, f, a) && a.answer.Response?
    ensures Kept(f, a) == f
    ensures Base(f, a) + Data(a.answer) <= body
    ensures !Broke(a.answer) ==> Base(f, a) + Data(a.answer) == body
  {
    hide Data, Broke;
    var r := ResumeFrom(f, a);
    if r > 0 && a.answer.status == 206 {
      assert f.part.value == body[..r];
      assert body == body[..r] + body[r..];
    } else {
      assert [] + Data(a.answer) == Data(a.answer);
    }
  }

  /** One honest call: it delivers exactly the body if the stream ends, having transferred
      only what was missing (206) or the whole (any other status); if the connection raises,
      the part is still a prefix, and no shorter than before unless the server started over. */
  lemma HonestCall(hash: Hash, body: Bytes, f: Files, a: Attempt)
    requires f.dest == None && OnTheWay(body, f) && SizeRight(body, a) && Honest(body, f, a)
    ensures var (after, outcome) := After(hash, hash(body), f, a);
      && OnTheWay(body, after)
      && (a.answer.Response? && Room(f, a) && !Broke(a.answer) ==>
            && outcome == Delivered && after == Files(Some(body), None)
            && |Data(a.answer)| == if a.answer.status == 206 then |body| - PartSize(f) else |body|)
      && (outcome != Delivered && (a.answer.Response? ==> a.answer.status == 206) ==>
            PartSize(f) <= PartSize(after))
  {
    hide Data, Broke;
    if a.answer.Response? && Room(f, a) {
      HonestBase(body, f, a);
    }
  }

  /** "The partial file is kept": of a transfer that sent nothing wrong, all that was received
      is on the disk afterwards exactly if the connection raised or the body was complete. A
      stream that merely ends early costs everything received so far. */
  lemma ReceivedKeptExactly(hash: Hash, body: Bytes, f: Files, a: Attempt)
    requires f.dest == None && Room(f, a) && a.answer.Response?
    requires Base(Kept(f, a), a) + Data(a.answer) <= body
    requires var got := Base(Kept(f, a), a) + Data(a.answer); hash(got) == hash(body) ==> got == body
    ensures var (after, outcome) := After(hash, hash(body), f, a);
      var got := Base(Kept(f, a), a) + Data(a.answer);
      after.part == Some(got) || after.dest == Some(got) <==> Broke(a.answer) || got == body
  {
    hide Data, Broke, Base;
    PartKeptExactly(hash, hash(body), f, a);
  }

  /** A damaged download costs one more call and no more: the next one starts from nothing,
      asks for no range, and if the server is honest and the stream ends it delivers the body. */
  lemma DamageHeals(hash: Hash, body: Bytes, f: Files, a: Attempt, next: Attempt)
    requires After(hash, hash(body), f, a).1 == Damaged
    requires var after := After(hash, hash(body), f, a).0;
      && SizeRight(body, next) && Honest(body, after, next)
      && next.answer.Response? && Room(after, next) && !Broke(next.answer)
    ensures var after := After(hash, hash(body), f, a).0;
      ResumeFrom(after, next) == 0 && After(hash, hash(body), after, next) == (Files(Some(body), None), Delivered)
  {
    hide Data, Broke, Honest;
    var (after, outcome) := After(hash, hash(body), f, a);
    OutcomeTells(hash, hash(body), f, a, next);
    assert after.dest == None;
    HonestCall(hash, body, after, next);
  }

  /** A part longer than the file is no part of it: whatever it holds, one honest answer
      delivers the body. */
  lemma OversizedHeals(hash: Hash, body: Bytes, f: Files, a: Attempt)
    requires f.dest == None && f.part.Some? && a.size == |body| > 0 && |f.part.value| > |body|
    requires Room(f, a) && a.answer.Response? && HonestData(body, a.answer) && !Broke(a.answer)
    ensures ResumeFrom(f, a) == 0
    ensures After(hash, hash(body), f, a) == (Files(Some(body), None), Delivered)
  {
    hide Data, Broke;
    RoomExact(f, a);
    assert [] + Data(a.answer) == body;
  }

  lemma HonestMoments(hash: Hash, body: Bytes, f: Files, a: Attempt, m: Files)
    requires f.dest == None && OnTheWay(body, f) && SizeRight(body, a) && Honest(body, f, a)
    requires m in Moments(hash, hash(body), f, a)
    ensures OnTheWay(body, m)
  {
    hide Delivery, Flatten, Writes, Broke;
    if a.answer.Response? {
      HonestBase(body, f, a);
      var blocks := Delivery(a.answer.blocks);
      if m in Writes(Base(f, a), blocks) {
        WritesGrow(Base(f, a), blocks, m);
        PrefixTransitive(m.part.value, Base(f, a) + Flatten(blocks), body);
      } else {
        PrefixTransitive(Base(f, a), Base(f, a) + Flatten(blocks), body);
      }
    }
  }

  lemma PrefixTransitive(a: Bytes, b: Bytes, c: Bytes)
    requires a <= b <= c
    ensures a <= c
  {
  }

  predicate HonestStep(body: Bytes, f: Files, s: Step) {
    SizeRight(body, s.a) && Honest(body, f, s.a)
  }

  /** A run in which every answer is honest about the request made of it. */
  predicate HonestRun(hash: Hash, body: Bytes, f: Files, steps: seq<Step>)
    decreases steps
  {
    steps == [] ||
    (HonestStep(body, f, steps[0]) && HonestRun(hash, body, Next(hash, hash(body), f, steps[0]), steps[1..]))
  }

  lemma HonestStepKeeps(hash: Hash, body: Bytes, f: Files, s: Step)
    requires OnTheWay(body, f) && HonestStep(body, f, s)
    ensures OnTheWay(body, Next(hash, hash(body), f, s))
  {
    hide After, Moments, Honest;
    var next := Next(hash, hash(body), f, s);
    if f.dest == Some(body) {
      StepSafe(hash, hash(body), f, s);
    } else {
      EndsInLastMoment(hash, hash(body), f, s.a);
      if next != f {
        assert next in Moments(hash, hash(body), f, s.a);
        HonestMoments(hash, body, f, s.a, next);
      }
    }
  }

  /** Against honest servers, over any calls broken or killed anywhere, the part is always a
      prefix of the body and the destination is absent or exactly the body. */
  lemma {:induction false} HonestRunKeeps(hash: Hash, body: Bytes, f: Files, steps: seq<Step>)
    requires OnTheWay(body, f) && HonestRun(hash, body, f, steps)
    ensures OnTheWay(body, Run(hash, hash(body), f, steps))
    decreases steps
  {
    hide Next, OnTheWay, HonestStep;
    if steps != [] {
      HonestStepKeeps(hash, body, f, steps[0]);
      HonestRunKeeps(hash, body, Next(hash, hash(body), f, steps[0]), steps[1..]);
    }
  }

  /** Every answer to a request for a range is a 206, or no response at all. */
  predicate AllPartial(hash: Hash, body: Bytes, f: Files, steps: seq<Step>)
    decreases steps
  {
    steps == [] ||
    ((ResumeFrom(f, steps[0].a) > 0 && steps[0].a.answer.Response? ==> steps[0].a.answer.status == 206) &&
     AllPartial(hash, body, Next(hash, hash(body), f, steps[0]), steps[1..]))
  }

  /** Nothing of the part is lost: it was delivered, or is as long as before. */
  predicate NotShrunk(before: Files, after: Files) {
    after.dest.Some? || PartSize(before) <= PartSize(after)
  }

  lemma MomentsGrow(hash: Hash, body: Bytes, f: Files, a: Attempt, m: Files)
    requires f.dest == None && OnTheWay(body, f) && SizeRight(body, a) && Honest(body, f, a)
    requires ResumeFrom(f, a) > 0 && a.answer.Response? ==> a.answer.status == 206
    requires m in Moments(hash, hash(body), f, a)
    ensures NotShrunk(f, m)
  {
    hide Delivery, Flatten, Writes, Broke;
    if a.answer.Response? {
      HonestBase(body, f, a);
      var blocks := Delivery(a.answer.blocks);
      if m in Writes(Base(f, a), blocks) {
        WritesGrow(Base(f, a), blocks, m);
      }
    }
  }

  lemma StepGrows(hash: Hash, body: Bytes, f: Files, s: Step)
    requires OnTheWay(body, f) && HonestStep(body, f, s)
    requires ResumeFrom(f, s.a) > 0 && s.a.answer.Response? ==> s.a.answer.status == 206
    ensures NotShrunk(f, Next(hash, hash(body), f, s))
  {
    hide After, Moments, Honest;
    var next := Next(hash, hash(body), f, s);
    if f.dest == Some(body) {
      StepSafe(hash, hash(body), f, s);
    } else {
      EndsInLastMoment(hash, hash(body), f, s.a);
      if next != f {
        assert next in Moments(hash, hash(body), f, s.a);
        MomentsGrow(hash, body, f, s.a, next);
      }
    }
  }

  /** While ranges are answered with 206, over any honest calls broken or killed anywhere, the
      part never shrinks until it is delivered. */
  lemma {:induction false} HonestRunGrows(hash: Hash, body: Bytes, f: Files, steps: seq<Step>)
    requires OnTheWay(body, f) && HonestRun(hash, body, f, steps) && AllPartial(hash, body, f, steps)
    ensures NotShrunk(f, Run(hash, hash(body), f, steps))
    decreases steps
  {
    hide Next, OnTheWay, HonestStep;
    if steps != [] {
      var next := Next(hash, hash(body), f, steps[0]);
      StepGrows(hash, body, f, steps[0]);
      HonestStepKeeps(hash, body, f, steps[0]);
      if next.dest.Some? {
        DeliveredStays(hash, hash(body), next, steps[1..]);
      } else {
        HonestRunGrows(hash, body, next, steps[1..]);
      }
    }
  }

  lemma DeliveredStays(hash: Hash, want: Text, f: Files, steps: seq<Step>)
    requires f.dest.Some?
    ensures Run(hash, want, f, steps) == f
  {
    RunSafe(hash, want, f, steps);
  }

  // ------------------------------------------------------------ when it can finish

  /** A server that honours ranges: it answers a range with 206, or with an error when the
      range starts at or past the end of the body. */
  predicate HonoursRanges(body: Bytes, f: Files, a: Attempt) {
    && Honest(body, f, a)
    && (ResumeFrom(f, a) > 0 && a.answer.Response? ==> a.answer.status == 206)
  }

  /** Against such a server some answer completes the download exactly when the part is not
      already the full length: a connection lost after the last byte, before the stream ends,
      leaves a part no retry can finish. */
  lemma CanFinishExactly(hash: Hash, body: Bytes, f: Files)
    requires f.dest == None && OnTheWay(body, f)
    ensures (exists a :: SizeRight(body, a) && HonoursRanges(body, f, a) && After(hash, hash(body), f, a).1 == Delivered)
      <==> PartSize(f) < |body| || body == []
  {
    var r := PartSize(f);
    if r < |body| || body == [] {
      var rest := body[r..];
      var blocks := if rest == [] then [] else [rest];
      var a := Attempt(0, 0, Response(if r > 0 then 206 else 200, blocks, EndOfStream));
      OneBlock(rest);
      assert Data(a.answer) == rest && !Broke(a.answer);
      assert body[0..] == body;
      assert HonoursRanges(body, f, a);
      HonestCall(hash, body, f, a);
      assert After(hash, hash(body), f, a).1 == Delivered;
    }
  }

  lemma OneBlock(rest: Bytes)
    ensures var blocks := if rest == [] then [] else [rest]; Flatten(Delivery(blocks)) == rest
  {
    if rest != [] {
      assert [rest][1..] == [];
      assert Delivery([rest]) == [rest] + Delivery([]);
      assert Flatten([rest]) == rest + Flatten([rest][1..]);
    }
  }

  predicate HonoursStep(body: Bytes, f: Files, s: Step) {
    SizeRight(body, s.a) && HonoursRanges(body, f, s.a)
  }

  /** And it stays so forever: with a full-length part every call against such a server
      leaves both files as they are. */
  lemma {:induction false} FullPartStuck(hash: Hash, body: Bytes, f: Files, steps: seq<Step>)
    requires body != [] && f == Files(None, Some(body))
    requires forall i :: 0 <= i < |steps| ==> HonoursStep(body, f, steps[i])
    ensures Run(hash, hash(body), f, steps) == f
    decreases steps
  {
    hide Flatten, Delivery;
    if steps != [] {
      assert HonoursStep(body, f, steps[0]);
      assert Next(hash, hash(body), f, steps[0]) == f;
      FullPartStuck(hash, body, f, steps[1..]);
    }
  }
}
