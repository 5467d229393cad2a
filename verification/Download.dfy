/** The resumable, verified download (apps/flasher/src/sambuca_flasher/download.py): two
    files, `.part` and the destination, against a server that may do anything. */
module Download {
  import opened Texts
  import opened Bytes

  /** SHA-256 in hexadecimal. */
  type Hash = Bytes -> Text

  datatype Ending = EndOfStream | Raised

  /** What the server does with one request. A response delivers its blocks, and then the
      stream ends or the connection raises. */
  datatype Answer =
    | NoAnswer
    | HttpError(code: nat)
    | Response(status: nat, blocks: seq<Bytes>, ending: Ending)

  datatype Outcome =
    | Delivered
    | WrongFileThere
    | NotEnoughSpace
    | ServerRefused(code: nat)
    | Stopped
    | Damaged

  /** The two files; `None` is a file that does not exist. */
  datatype Files = Files(dest: Option<Bytes>, part: Option<Bytes>)

  /** One call of `fetch`: the size asked for (0 when unknown), the free space, the answer. */
  datatype Attempt = Attempt(size: nat, free: nat, answer: Answer)

  function PartSize(f: Files): nat {
    if f.part.Some? then |f.part.value| else 0
  }

  predicate TooLittleSpace(f: Files, a: Attempt) {
    a.size > 0 && 100 * a.free < 105 * (a.size - PartSize(f))
  }

  predicate Oversized(f: Files, a: Attempt) {
    a.size > 0 && PartSize(f) > a.size
  }

  /** A part bigger than the target is dropped before anything is asked for. */
  function Kept(f: Files, a: Attempt): Files {
    if Oversized(f, a) then f.(part := None) else f
  }

  /** The byte the request asks to resume from; 0 sends no Range header. */
  function ResumeFrom(f: Files, a: Attempt): nat {
    PartSize(Kept(f, a))
  }

  /** What the body is appended to: the part if the server honoured the range, else nothing. */
  function Base(kept: Files, a: Attempt): Bytes
    requires a.answer.Response?
  {
    if PartSize(kept) > 0 && a.answer.status == 206 then kept.part.value else []
  }

  /** The blocks up to the first empty one, which reads as the end of the stream. */
  function Delivery(blocks: seq<Bytes>): (r: seq<Bytes>)
    ensures r <= blocks
    ensures forall i :: 0 <= i < |r| ==> r[i] != []
    ensures |r| < |blocks| ==> blocks[|r|] == []
  {
    if blocks == [] || blocks[0] == [] then [] else [blocks[0]] + Delivery(blocks[1..])
  }

  function Data(a: Answer): Bytes
    requires a.Response?
  {
    Flatten(Delivery(a.blocks))
  }

  predicate Broke(a: Answer)
    requires a.Response?
  {
    a.ending == Raised && Delivery(a.blocks) == a.blocks
  }

  /** What a response makes of the files. */
  function Received(hash: Hash, want: Text, kept: Files, a: Attempt): (Files, Outcome)
    requires a.answer.Response?
  {
    var written := Base(kept, a) + Data(a.answer);
    if Broke(a.answer) then (Files(None, Some(written)), Stopped)
    else if hash(written) == want then (Files(Some(written), None), Delivered)
    else (Files(None, None), Damaged)
  }

  /** The files and the outcome after one call. */
  function After(hash: Hash, want: Text, f: Files, a: Attempt): (Files, Outcome) {
    if f.dest.Some? then (f, if hash(f.dest.value) == want then Delivered else WrongFileThere)
    else if TooLittleSpace(f, a) then (f, NotEnoughSpace)
    else
      match a.answer
      case NoAnswer => (Kept(f, a), Stopped)
      case HttpError(code) => (Kept(f, a), ServerRefused(code))
      case Response(_, _, _) => Received(hash, want, Kept(f, a), a)
  }

  // ------------------------------------------------------------ every moment of a call

  /** The part after each block. */
  function Writes(base: Bytes, blocks: seq<Bytes>): seq<Files>
    decreases blocks
  {
    if blocks == [] then [] else [Files(None, Some(base + blocks[0]))] + Writes(base + blocks[0], blocks[1..])
  }

  function ReceivedMoments(hash: Hash, want: Text, kept: Files, a: Attempt): seq<Files>
    requires a.answer.Response?
  {
    (if PartSize(kept) > 0 && a.answer.status != 206 then [Files(None, None)] else []) +
    [Files(None, Some(Base(kept, a)))] +
    Writes(Base(kept, a), Delivery(a.answer.blocks)) +
    (if Broke(a.answer) then [] else [Received(hash, want, kept, a).0])
  }

  /** The files after every operation on them in one call, in order. */
  function Moments(hash: Hash, want: Text, f: Files, a: Attempt): seq<Files> {
    if f.dest.Some? || TooLittleSpace(f, a) then []
    else
      (if Oversized(f, a) then [Kept(f, a)] else []) +
      (if a.answer.Response? then ReceivedMoments(hash, want, Kept(f, a), a) else [])
  }

  lemma BrokeIs(a: Attempt)
    requires a.answer.Response?
    ensures Broke(a.answer) <==> a.answer.ending == Raised && Delivery(a.answer.blocks) == a.answer.blocks
  {
  }

  lemma FlattenCons(base: Bytes, blocks: seq<Bytes>)
    requires blocks != []
    ensures base + Flatten(blocks) == (base + blocks[0]) + Flatten(blocks[1..])
  {
  }

  lemma WritesCons(base: Bytes, blocks: seq<Bytes>)
    requires blocks != []
    ensures Writes(base, blocks) == [Files(None, Some(base + blocks[0]))] + Writes(base + blocks[0], blocks[1..])
  {
  }

  lemma DeliveryStep(blocks: seq<Bytes>, i: nat)
    requires i < |blocks| && blocks[i] != []
    ensures Delivery(blocks[i..]) != [] && Delivery(blocks[i..])[0] == blocks[i]
    ensures Delivery(blocks[i..])[1..] == Delivery(blocks[i + 1..])
  {
    assert blocks[i..][1..] == blocks[i + 1..];
  }

  lemma DeliveryEnd(blocks: seq<Bytes>, i: nat, base: Bytes)
    requires i <= |blocks| && (i < |blocks| ==> blocks[i] == [])
    ensures base + Flatten(Delivery(blocks[i..])) == base && Writes(base, Delivery(blocks[i..])) == []
  {
    assert Delivery(blocks[i..]) == [];
  }

  /** The download directory. `moments` records the files after every operation on them. */
  class Downloads {
    var dest: Option<Bytes>
    var part: Option<Bytes>
    ghost var moments: seq<Files>

    constructor (dest: Option<Bytes>, part: Option<Bytes>)
      ensures this.dest == dest && this.part == part && moments == []
    {
      this.dest, this.part, moments := dest, part, [];
    }

    function Now(): Files
      reads this
    {
      Files(dest, part)
    }

    method SetPart(content: Option<Bytes>)
      modifies this
      ensures dest == old(dest) && part == content && moments == old(moments) + [Now()]
    {
      part := content;
      moments := moments + [Files(dest, part)];
    }

    /** `fetch`: the files end as `After` says, through exactly the moments listed. */
    method Fetch(hash: Hash, want: Text, a: Attempt) returns (outcome: Outcome, requested: nat)
      modifies this
      ensures (Now(), outcome) == After(hash, want, old(Now()), a)
      ensures moments == old(moments) + Moments(hash, want, old(Now()), a)
      ensures outcome !in {Delivered, WrongFileThere, NotEnoughSpace} ==> requested == ResumeFrom(old(Now()), a)
    {
      hide Received, ReceivedMoments;
      requested := 0;
      if dest.Some? {
        outcome := if hash(dest.value) == want then Delivered else WrongFileThere;
        return;
      }
      var resumeFrom := if part.Some? then |part.value| else 0;
      if a.size > 0 && 100 * a.free < 105 * (a.size - resumeFrom) {
        outcome := NotEnoughSpace;
        return;
      }
      if a.size > 0 && resumeFrom > a.size {
        SetPart(None);
        resumeFrom := 0;
      }
      requested := resumeFrom;
      match a.answer {
        case NoAnswer => outcome := Stopped;
        case HttpError(code) => outcome := ServerRefused(code);
        case Response(_, _, _) => outcome := Accept(hash, want, a);
      }
    }

    /** The response: resume or start over, receive, verify, and only then rename. */
    method Accept(hash: Hash, want: Text, a: Attempt) returns (outcome: Outcome)
      requires dest == None && a.answer.Response?
      modifies this
      ensures (Now(), outcome) == Received(hash, want, old(Now()), a)
      ensures moments == old(moments) + ReceivedMoments(hash, want, old(Now()), a)
    {
      hide Flatten, Delivery, Writes, Broke;
      BrokeIs(a);
      var resumeFrom := if part.Some? then |part.value| else 0;
      if resumeFrom > 0 && a.answer.status != 206 {
        resumeFrom := 0;
        SetPart(None);
      }
      SetPart(Some(if resumeFrom > 0 then part.value else []));
      Receive(a.answer.blocks);
      if a.answer.ending == Raised && Delivery(a.answer.blocks) == a.answer.blocks {
        outcome := Stopped;
      } else if hash(part.value) != want {
        SetPart(None);
        outcome := Damaged;
      } else {
        dest, part := part, None;
        moments := moments + [Files(dest, part)];
        outcome := Delivered;
      }
    }

    /** The read loop: append each block until an empty one. */
    method Receive(blocks: seq<Bytes>)
      requires dest == None && part.Some?
      modifies this
      ensures dest == None && part == Some(old(part).value + Flatten(Delivery(blocks)))
      ensures moments == old(moments) + Writes(old(part).value, Delivery(blocks))
    {
      hide Flatten, Delivery, Writes;
      var i := 0;
      ghost var todo := Delivery(blocks);
      ghost var content, trail := part.value + Flatten(todo), moments + Writes(part.value, todo);
      assert blocks[0..] == blocks;
      while i < |blocks| && blocks[i] != []
        invariant 0 <= i <= |blocks| && todo == Delivery(blocks[i..])
        invariant dest == None && part.Some?
        invariant content == part.value + Flatten(todo)
        invariant trail == moments + Writes(part.value, todo)
      {
        DeliveryStep(blocks, i);
        FlattenCons(part.value, todo);
        WritesCons(part.value, todo);
        SetPart(Some(part.value + blocks[i]));
        todo := todo[1..];
        i := i + 1;
      }
      DeliveryEnd(blocks, i, part.value);
    }
  }
}
