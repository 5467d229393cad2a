/** What holds of provisioning runs whatever breaks in them (pi.py). */
module ProvisionLaws {
  import opened Texts
  import opened TextSearch
  import opened Provision
  import opened CmdlineHook

  /** A directory holds one file under each name. */
  predicate DistinctNames(payload: seq<PayloadFile>) {
    forall i, j :: 0 <= i < j < |payload| ==> payload[i].name != payload[j].name
  }

  /** A note from which the owner can finish the join: it ends in a line with the network's name
      and one with the country, and gives the command. */
  predicate NoteSays(note: Text, ssid: Text, country: Text) {
    && Ends(note, Lit("\nssid=") + ssid + Lit("\ncountry=") + country + Lit("\n"))
    && Find(note, Lit("nmcli device wifi connect '") + ssid + Lit("' --ask")).Some?
  }

  predicate Ends(t: Text, end: Text) {
    |end| <= |t| && t[|t| - |end|..] == end
  }

  /** The script and everything that was asked for is on the card, whole. */
  predicate Ready(files: Files, s: Settings) {
    && Read(files, FirstRun) == Some(s.script)
    && (s.enableSsh ==> Read(files, SshMarker) == Some([]))
    && (s.wifiSsid != [] ==>
          Read(files, WifiNote).Some? && NoteSays(Read(files, WifiNote).value, s.wifiSsid, s.wifiCountry))
    && (s.payload.Some? ==> forall i :: 0 <= i < |s.payload.value| ==>
          Read(files, Payload(s.payload.value[i].name)) == Some(s.payload.value[i].content))
  }

  /** The card as the writes leave it, which is ready. */
  predicate Whole(files: Files, s: Settings) {
    && (forall i :: 0 <= i < |Inert(s)| ==> Read(files, Inert(s)[i].0) == Some(Inert(s)[i].1))
    && (forall i :: 0 <= i < |PayloadOf(s)| ==>
          Read(files, Payload(PayloadOf(s)[i].name)) == Some(PayloadOf(s)[i].content))
  }

  lemma WifiTextSays(ssid: Text, country: Text)
    ensures NoteSays(WifiText(ssid, country), ssid, country)
  {
    hide Lit, Find;
    var note := WifiText(ssid, country);
    var before := Lit("# Finish this on the Pi:\n#   sudo ");
    var command := Lit("nmcli device wifi connect '") + ssid + Lit("' --ask");
    var end := Lit("\nssid=") + ssid + Lit("\ncountry=") + country + Lit("\n");
    assert note == before + command + end;
    assert note[|before|..|before| + |command|] == command;
    assert At(note, command, |before|);
  }

  lemma WholeIsReady(files: Files, s: Settings)
    requires Whole(files, s)
    ensures Ready(files, s)
  {
    hide WifiText, NoteSays;
    WifiTextSays(s.wifiSsid, s.wifiCountry);
    InertSays(s);
    hide Inert;
    var w := Inert(s);
    assert Read(files, w[0].0) == Some(w[0].1);
    assert s.enableSsh ==> Read(files, w[1].0) == Some(w[1].1);
    assert s.wifiSsid != [] ==> Read(files, w[|w| - 1].0) == Some(w[|w| - 1].1);
    assert s.payload.Some? ==> PayloadOf(s) == s.payload.value;
  }

  lemma InertSays(s: Settings)
    ensures |Inert(s)| > 0 && Inert(s)[0] == (FirstRun, s.script)
    ensures s.enableSsh ==> |Inert(s)| > 1 && Inert(s)[1] == (SshMarker, [])
    ensures s.wifiSsid != [] ==> Inert(s)[|Inert(s)| - 1] == (WifiNote, WifiText(s.wifiSsid, s.wifiCountry))
  {
    hide WifiText;
  }

  predicate IsArmed(files: Files) {
    Cmdline in files && Armed(files[Cmdline])
  }

  /** The paths a run may write. */
  predicate Target(s: Settings, p: Path) {
    match p
    case Cmdline => true
    case FirstRun => true
    case SshMarker => s.enableSsh
    case WifiNote => s.wifiSsid != []
    case Payload(name) => exists i :: 0 <= i < |PayloadOf(s)| && PayloadOf(s)[i].name == name
  }

  // ------------------------------------------------------------ single steps

  lemma ReadWrite(files: Files, p: Path, content: Text, fate: Fate, q: Path)
    ensures q != p ==> Read(Write(files, p, content, fate), q) == Read(files, q)
    ensures fate == Written ==> Read(Write(files, p, content, fate), p) == Some(content)
  {
  }

  /** A copy that ends without an error has brought every file over, and touched no other. */
  lemma {:induction false} CopyBrings(files: Files, payload: seq<PayloadFile>, luck: Luck, i: nat)
    requires DistinctNames(payload) && Copy(files, payload, luck).1 == Complete && i < |payload|
    ensures Read(Copy(files, payload, luck).0, Payload(payload[i].name)) == Some(payload[i].content)
    decreases |payload|
  {
    hide Write, Read;
    var front, last := payload[..|payload| - 1], payload[|payload| - 1];
    var p := Payload(last.name);
    ReadWrite(Copy(files, front, luck).0, p, last.content, luck(p), Payload(payload[i].name));
    if i < |front| {
      CopyBrings(files, front, luck, i);
    }
  }

  lemma {:induction false} CopyTouches(files: Files, payload: seq<PayloadFile>, luck: Luck, q: Path)
    requires forall i :: 0 <= i < |payload| ==> q != Payload(payload[i].name)
    ensures Read(Copy(files, payload, luck).0, q) == Read(files, q)
    decreases |payload|
  {
    hide Write, Read;
    if payload != [] {
      var front, last := payload[..|payload| - 1], payload[|payload| - 1];
      CopyTouches(files, front, luck, q);
      var p := Payload(last.name);
      ReadWrite(Copy(files, front, luck).0, p, last.content, luck(p), q);
    }
  }

  predicate DistinctPaths(writes: seq<(Path, Text)>) {
    forall i, j :: 0 <= i < j < |writes| ==> writes[i].0 != writes[j].0
  }

  lemma {:induction false} LayBrings(files: Files, writes: seq<(Path, Text)>, luck: Luck, i: nat)
    requires DistinctPaths(writes) && Lay(files, writes, luck).1 && i < |writes|
    ensures Read(Lay(files, writes, luck).0, writes[i].0) == Some(writes[i].1)
    decreases |writes|
  {
    hide Write, Read;
    LayStep(files, writes, luck);
    var done := Write(files, writes[0].0, writes[0].1, luck(writes[0].0));
    ReadWrite(files, writes[0].0, writes[0].1, luck(writes[0].0), writes[0].0);
    if i > 0 {
      LayBrings(done, writes[1..], luck, i - 1);
    } else {
      assert forall k :: 0 <= k < |writes[1..]| ==> writes[1..][k] == writes[k + 1];
      assert Read(Lay(done, writes[1..], luck).0, writes[0].0) == Read(done, writes[0].0);
    }
  }

  lemma InertPaths(s: Settings)
    ensures DistinctPaths(Inert(s))
    ensures forall i :: 0 <= i < |Inert(s)| ==> Inert(s)[i].0 != Cmdline && !Inert(s)[i].0.Payload? && Target(s, Inert(s)[i].0)
    ensures forall p :: Target(s, p) && p != Cmdline && !p.Payload? ==> exists i :: 0 <= i < |Inert(s)| && Inert(s)[i].0 == p
  {
    hide WifiText;
    assert Inert(s)[0].0 == FirstRun;
    assert s.enableSsh ==> Inert(s)[1].0 == SshMarker;
    assert s.wifiSsid != [] ==> Inert(s)[|Inert(s)| - 1].0 == WifiNote;
  }

  // ------------------------------------------------------------ everything before the arming

  /** The inert steps went well: all of it is there. */
  lemma {:induction false} LaidWhole(files: Files, s: Settings, luck: Luck)
    requires DistinctNames(PayloadOf(s)) && Laid(files, s, luck).1
    ensures Whole(Laid(files, s, luck).0, s)
  {
    hide Copy, Lay, Read, Inert;
    InertPaths(s);
    var copied := Copy(files, PayloadOf(s), luck);
    var laid := Laid(files, s, luck).0;
    forall i | 0 <= i < |Inert(s)|
      ensures Read(laid, Inert(s)[i].0) == Some(Inert(s)[i].1)
    {
      LayBrings(copied.0, Inert(s), luck, i);
    }
    forall i | 0 <= i < |PayloadOf(s)|
      ensures Read(laid, Payload(PayloadOf(s)[i].name)) == Some(PayloadOf(s)[i].content)
    {
      CopyBrings(files, PayloadOf(s), luck, i);
    }
  }

  lemma {:induction false} LaidTouches(files: Files, s: Settings, luck: Luck, q: Path)
    requires !Target(s, q) || q == Cmdline
    ensures Read(Laid(files, s, luck).0, q) == Read(files, q)
  {
    hide Copy, Lay, Read, Inert;
    InertPaths(s);
    CopyTouches(files, PayloadOf(s), luck, q);
  }

  lemma WholeWithoutCmdline(files: Files, s: Settings, line: Text, fate: Fate)
    ensures Whole(Write(files, Cmdline, line, fate), s) <==> Whole(files, s)
  {
    hide Inert;
    InertPaths(s);
    var after := Write(files, Cmdline, line, fate);
    forall q: Path | q != Cmdline
      ensures Read(after, q) == Read(files, q)
    {
      ReadWrite(files, Cmdline, line, fate, q);
    }
  }

  // ------------------------------------------------------------ arming comes last

  /** Whatever breaks, wherever, even within the write of the command line: a card that was
      not armed before is armed afterwards only if everything it will need is on it. */
  lemma {:induction false} ArmLast(mounted: bool, files: Files, s: Settings, luck: Luck)
    requires DistinctNames(PayloadOf(s)) && !IsArmed(files)
    ensures IsArmed(Run(mounted, files, s, luck).0) ==> Ready(Run(mounted, files, s, luck).0, s)
  {
    hide Laid, Ready, Whole, Write, Armed, Report, PayloadCount, Copy;
    if mounted && Cmdline in files {
      var laid := Laid(files, s, luck);
      LaidKeepsCmdline(files, s, luck);
      if laid.1 {
        LaidWhole(files, s, luck);
        WholeWithoutCmdline(laid.0, s, Strip(files[Cmdline]) + APPEND, luck(Cmdline));
        WholeIsReady(Run(mounted, files, s, luck).0, s);
      }
    }
  }

  /** The luck that leaves the script empty and all else well. */
  function EmptyScript(): Luck {
    (p: Path) => if p == FirstRun then Failed(Some(0)) else Written
  }

  ghost predicate SafeWhateverBreaks(files: Files, s: Settings) {
    forall luck: Luck :: IsArmed(Run(true, files, s, luck).0) ==> Ready(Run(true, files, s, luck).0, s)
  }

  /** Exactly the cards that come unarmed are safe: provisioning a card that is armed already
      rewrites the script in place, and can leave it armed with an incomplete one. */
  lemma {:induction false} ArmLastExact(files: Files, s: Settings)
    requires DistinctNames(PayloadOf(s)) && s.script != []
    ensures SafeWhateverBreaks(files, s) <==> !IsArmed(files)
  {
    hide Ready, Armed;
    if !IsArmed(files) {
      forall luck: Luck
        ensures IsArmed(Run(true, files, s, luck).0) ==> Ready(Run(true, files, s, luck).0, s)
      {
        ArmLast(true, files, s, luck);
      }
    } else {
      EmptyScriptBreaks(files, s);
    }
  }

  lemma {:induction false} EmptyScriptBreaks(files: Files, s: Settings)
    requires DistinctNames(PayloadOf(s)) && s.script != [] && IsArmed(files)
    ensures IsArmed(Run(true, files, s, EmptyScript()).0) && !Ready(Run(true, files, s, EmptyScript()).0, s)
  {
    hide Armed, Copy, Marker, Note;
    var luck := EmptyScript();
    CopyUntroubled(files, PayloadOf(s), luck);
    var copied := Copy(files, PayloadOf(s), luck);
    LayStep(copied.0, Inert(s), luck);
    var after := Run(true, files, s, luck).0;
    assert after == copied.0[FirstRun := []];
    assert Read(copied.0, Cmdline) == Read(files, Cmdline);
    assert Read(after, FirstRun) == Some([]);
  }

  lemma {:induction false} CopyUntroubled(files: Files, payload: seq<PayloadFile>, luck: Luck)
    requires forall i :: 0 <= i < |payload| ==> luck(Payload(payload[i].name)) == Written
    ensures Copy(files, payload, luck).1 == Complete
    decreases |payload|
  {
    if payload != [] {
      CopyUntroubled(files, payload[..|payload| - 1], luck);
    }
  }

  // ------------------------------------------------------------ runs that end well, and retries

  /** A run touches nothing but its targets, however it ends. */
  lemma {:induction false} RunTouches(mounted: bool, files: Files, s: Settings, luck: Luck, q: Path)
    requires !Target(s, q)
    ensures Read(Run(mounted, files, s, luck).0, q) == Read(files, q)
  {
    hide Laid, Write, Armed, Report, PayloadCount, Copy, Read;
    if mounted && Cmdline in files {
      LaidTouches(files, s, luck, q);
      ReadWrite(Laid(files, s, luck).0, Cmdline, Strip(files[Cmdline]) + APPEND, luck(Cmdline), q);
    }
  }

  /** A run that reports success has put everything in place and armed the line. */
  lemma {:induction false} SuccessMeansDone(mounted: bool, files: Files, s: Settings, luck: Luck)
    requires DistinctNames(PayloadOf(s)) && Run(mounted, files, s, luck).1.Ok?
    ensures Cmdline in files && Ready(Run(mounted, files, s, luck).0, s) && Whole(Run(mounted, files, s, luck).0, s)
    ensures Read(Run(mounted, files, s, luck).0, Cmdline) == Some(Final(files[Cmdline]))
  {
    hide Laid, Ready, Whole, Write, Armed, Strip, Report, PayloadCount, Copy;
    var laid := Laid(files, s, luck);
    LaidKeepsCmdline(files, s, luck);
    LaidWhole(files, s, luck);
    WholeWithoutCmdline(laid.0, s, Strip(files[Cmdline]) + APPEND, luck(Cmdline));
    WholeIsReady(Run(mounted, files, s, luck).0, s);
    ReadWrite(laid.0, Cmdline, Strip(files[Cmdline]) + APPEND, luck(Cmdline), Cmdline);
  }

  /** Two cards with everything in place differ only in what no run touches. */
  lemma {:induction false} WholeDetermines(a: Files, b: Files, s: Settings)
    requires Whole(a, s) && Whole(b, s)
    requires Read(a, Cmdline) == Read(b, Cmdline)
    requires forall q :: !Target(s, q) ==> Read(a, q) == Read(b, q)
    ensures a == b
  {
    hide Inert;
    InertPaths(s);
    forall q: Path
      ensures Read(a, q) == Read(b, q)
    {
      if Target(s, q) && q.Payload? {
        var i :| 0 <= i < |PayloadOf(s)| && PayloadOf(s)[i].name == q.name;
        assert Read(a, Payload(PayloadOf(s)[i].name)) == Read(b, Payload(PayloadOf(s)[i].name));
      } else if Target(s, q) && q != Cmdline {
        var i :| 0 <= i < |Inert(s)| && Inert(s)[i].0 == q;
        assert Read(a, Inert(s)[i].0) == Read(b, Inert(s)[i].0);
      }
    }
    SameReads(a, b);
  }

  lemma SameReads(a: Files, b: Files)
    requires forall q :: Read(a, q) == Read(b, q)
    ensures a == b
  {
    assert forall q :: q in a <==> q in b by {
      assert forall q :: Read(a, q).Some? <==> q in a;
      assert forall q :: Read(b, q).Some? <==> q in b;
    }
    assert forall q :: q in a ==> Read(a, q).value == a[q] && Read(b, q).value == b[q];
  }

  /** Running again after a success changes no file, so it leaves the command line alone. */
  lemma {:induction false} SecondRunChangesNothing(mounted: bool, files: Files, s: Settings, luck: Luck, again: Luck)
    requires DistinctNames(PayloadOf(s)) && Run(mounted, files, s, luck).1.Ok?
    requires Run(mounted, Run(mounted, files, s, luck).0, s, again).1.Ok?
    ensures Run(mounted, Run(mounted, files, s, luck).0, s, again).0 == Run(mounted, files, s, luck).0
  {
    hide Run, Ready, Whole, Final, Target, Read;
    var first := Run(mounted, files, s, luck).0;
    var second := Run(mounted, first, s, again).0;
    SuccessMeansDone(mounted, files, s, luck);
    SuccessMeansDone(mounted, first, s, again);
    ReadIs(first, Cmdline);
    FinalSettles(files[Cmdline]);
    forall q | !Target(s, q)
      ensures Read(second, q) == Read(first, q)
    {
      RunTouches(mounted, first, s, again, q);
    }
    WholeDetermines(second, first, s);
  }

  lemma ReadIs(files: Files, p: Path)
    ensures p in files ==> Read(files, p) == Some(files[p])
    ensures p !in files ==> Read(files, p) == None
  {
  }

  function KeptOf(fate: Fate): Option<nat> {
    if fate == Written then None else fate.kept
  }

  /** The write of the command line broke, and what it kept is not a line to start over from. */
  predicate LineLost(files: Files, s: Settings, luck: Luck)
    requires Cmdline in files
  {
    var text := Strip(files[Cmdline]);
    && !Armed(files[Cmdline])
    && Laid(files, s, luck).1
    && KeptOf(luck(Cmdline)).Some?
    && var n := KeptOf(luck(Cmdline)).value; n < |text + APPEND| && n != |text| && n != |text| + 1
  }

  /** The command line after any run. */
  lemma {:induction false} LineAfter(files: Files, s: Settings, luck: Luck)
    requires Cmdline in files
    ensures Cmdline in Run(true, files, s, luck).0
    ensures Final(Run(true, files, s, luck).0[Cmdline]) == Final(files[Cmdline]) <==> !LineLost(files, s, luck)
  {
    hide Laid, Final, Armed, Strip, Report, PayloadCount, Copy, APPEND;
    var line := files[Cmdline];
    var laid := Laid(files, s, luck);
    LaidKeepsCmdline(files, s, luck);
    ArmedStrip(line);
    if laid.1 && !Armed(line) {
      var n := KeptOf(luck(Cmdline));
      CutHeals(line, if n.Some? then n.value else |Strip(line) + APPEND|);
    }
  }

  /** A run that was broken can be repeated, and comes to the very card an unbroken run would
      have made, exactly if the break did not fall inside the write of the command line at a
      place that loses part of the old line or leaves part of the hook. */
  lemma {:induction false} RetryExact(files: Files, s: Settings, luck: Luck, again: Luck, clean: Luck)
    requires DistinctNames(PayloadOf(s)) && Cmdline in files
    requires Run(true, Run(true, files, s, luck).0, s, again).1.Ok? && Run(true, files, s, clean).1.Ok?
    ensures Run(true, Run(true, files, s, luck).0, s, again).0 == Run(true, files, s, clean).0 <==>
      !LineLost(files, s, luck)
  {
    hide Run, Ready, Whole, Final, Target, Read, LineLost;
    var broken := Run(true, files, s, luck).0;
    var retried := Run(true, broken, s, again).0;
    var whole := Run(true, files, s, clean).0;
    LineAfter(files, s, luck);
    SuccessMeansDone(true, broken, s, again);
    SuccessMeansDone(true, files, s, clean);
    forall q | !Target(s, q)
      ensures Read(retried, q) == Read(whole, q)
    {
      RunTouches(true, files, s, luck, q);
      RunTouches(true, broken, s, again, q);
      RunTouches(true, files, s, clean, q);
    }
    if !LineLost(files, s, luck) {
      WholeDetermines(retried, whole, s);
    }
  }

  /** The round trip of a card: armed by provisioning, normal again after the first boot, and
      the line is the one it came with exactly if it had no hook-like parameter of its own. */
  lemma {:induction false} FirstBoot(mounted: bool, files: Files, s: Settings, luck: Luck)
    requires DistinctNames(PayloadOf(s)) && !IsArmed(files) && Run(mounted, files, s, luck).1.Ok?
    ensures Cmdline in files && IsArmed(Run(mounted, files, s, luck).0)
    ensures !Armed(Disarm(Run(mounted, files, s, luck).0[Cmdline]))
    ensures Disarm(Run(mounted, files, s, luck).0[Cmdline]) == Strip(files[Cmdline]) <==> HookFree(Strip(files[Cmdline]))
  {
    hide Run, Ready, Whole, Armed, Strip, APPEND, Disarm, HookFree, Read;
    var after := Run(mounted, files, s, luck).0;
    SuccessMeansDone(mounted, files, s, luck);
    ReadIs(after, Cmdline);
    var line := files[Cmdline];
    ArmedStrip(line);
    FinalSettles(line);
    DisarmUnarms(Strip(line));
    DisarmExact(Strip(line));
  }

  /** The one line the firmware reads. */
  function FirstLine(t: Text): Text {
    if t == [] || t[0] == NEWLINE then [] else [t[0]] + FirstLine(t[1..])
  }

  lemma {:induction false} FirstLineIs(t: Text)
    ensures FirstLine(t) <= t
    ensures NEWLINE !in t ==> FirstLine(t) == t
    ensures NEWLINE in t ==> |FirstLine(t)| < |t| && t[|FirstLine(t)|] == NEWLINE
  {
    if t != [] {
      FirstLineIs(t[1..]);
      assert t == [t[0]] + t[1..];
    }
  }

  lemma {:induction false} FirstLineWithin(a: Text, b: Text)
    requires NEWLINE in a
    ensures FirstLine(a + b) == FirstLine(a)
  {
    if a[0] != NEWLINE {
      assert a == [a[0]] + a[1..];
      assert (a + b)[1..] == a[1..] + b;
      FirstLineWithin(a[1..], b);
    }
  }

  lemma AppendIsOneLine()
    ensures NEWLINE !in APPEND
  {
    hide Hit, RUN_HOOK, ACTION_HOOK, UNIT_HOOK;
    Hooks();
    assert NEWLINE !in RUN_HOOK && NEWLINE !in ACTION_HOOK && NEWLINE !in UNIT_HOOK;
  }

  /** The hook stands on the line the firmware reads exactly if the line that came with the
      card was one line: `cmdline.txt` is stripped, not cut. */
  lemma {:induction false} FirmwareSeesHook(mounted: bool, files: Files, s: Settings, luck: Luck)
    requires DistinctNames(PayloadOf(s)) && !IsArmed(files) && Run(mounted, files, s, luck).1.Ok?
    ensures Cmdline in files && Cmdline in Run(mounted, files, s, luck).0
    ensures Armed(FirstLine(Run(mounted, files, s, luck).0[Cmdline])) <==> NEWLINE !in Strip(files[Cmdline])
  {
    hide Run, Ready, Whole, Find, Strip, APPEND, FirstLine, Read;
    SuccessMeansDone(mounted, files, s, luck);
    ReadIs(Run(mounted, files, s, luck).0, Cmdline);
    var line := files[Cmdline];
    var text := Strip(line);
    ArmedStrip(line);
    FinalSettles(line);
    AppendIsOneLine();
    FirstLineIs(text + APPEND);
    if NEWLINE in text {
      FirstLineWithin(text, APPEND);
      FirstLineIs(text);
      FrontUnarmed(text, |FirstLine(text)|);
      assert FirstLine(text) == text[..|FirstLine(text)|];
    }
  }

  lemma FrontUnarmed(text: Text, n: nat)
    requires !Armed(text) && n <= |text|
    ensures !Armed(text[..n])
  {
    hide Find;
    forall k: nat
      ensures !At(text[..n], RUN, k)
    {
      assert !At(text, RUN, k);
      assert k + |RUN| <= n ==> text[..n][k..k + |RUN|] == text[k..k + |RUN|];
    }
  }

  // ------------------------------------------------------------ what the report says

  /** The report warns that no key was installed whenever ssh is on and no tailnet key was
      given, and so says both that a key was installed and that none was exactly when ssh is on
      with an authorised key and no tailnet key. */
  lemma WarningExact(mounted: bool, files: Files, s: Settings, luck: Luck)
    requires Run(mounted, files, s, luck).1.Ok?
    ensures var report := Run(mounted, files, s, luck).1.value;
      (NoKeyWarning in report <==> s.enableSsh && s.tailscaleKey == []) &&
      (NoKeyWarning in report && AuthorisedKey in report <==> s.enableSsh && s.authorizedKey != [] && s.tailscaleKey == [])
  {
    hide Laid, Armed, Strip, PayloadCount, Copy;
    ReportKeys(s, PayloadCount(Copy(files, PayloadOf(s), luck).0), AlreadyArmed);
    ReportKeys(s, PayloadCount(Copy(files, PayloadOf(s), luck).0), ArmedCmdline);
  }

  lemma ReportKeys(s: Settings, count: nat, last: Action)
    requires last != NoKeyWarning && last != AuthorisedKey
    ensures NoKeyWarning in Report(s, count, last) <==> s.enableSsh && s.tailscaleKey == []
    ensures AuthorisedKey in Report(s, count, last) <==> s.enableSsh && s.authorizedKey != []
  {
  }

  /** The files under `sambuca/` are those the copy left there. */
  lemma {:induction false} PayloadStays(files: Files, s: Settings, luck: Luck)
    ensures PayloadCount(Run(true, files, s, luck).0) == PayloadCount(Copy(files, PayloadOf(s), luck).0) || Cmdline !in files
  {
    hide Copy, Inert, Armed, Strip, APPEND, Report;
    if Cmdline in files {
      var copied, after := Copy(files, PayloadOf(s), luck).0, Run(true, files, s, luck).0;
      InertPaths(s);
      forall p: Path | p.Payload?
        ensures p in copied <==> p in after
      {
        SamePayload(files, s, luck, p);
      }
      assert (set p | p in copied && p.Payload?) == (set p | p in after && p.Payload?);
    }
  }

  lemma SamePayload(files: Files, s: Settings, luck: Luck, p: Path)
    requires p.Payload? && Cmdline in files
    ensures p in Copy(files, PayloadOf(s), luck).0 <==> p in Run(true, files, s, luck).0
  {
    hide Copy, Inert, Armed, Strip, APPEND, Report, PayloadCount, Lay;
    InertPaths(s);
    var copied := Copy(files, PayloadOf(s), luck).0;
    ReadIs(copied, p);
    ReadIs(Laid(files, s, luck).0, p);
    ReadIs(Run(true, files, s, luck).0, p);
    assert Read(Laid(files, s, luck).0, p) == Read(copied, p);
    ReadWrite(Laid(files, s, luck).0, Cmdline, Strip(files[Cmdline]) + APPEND, luck(Cmdline), p);
  }

  /** A report of success says what was done and nothing else: how many files are in the payload
      directory, the script, the switches that were asked for, and last whether this run armed
      the card or found it armed. */
  lemma ReportTells(mounted: bool, files: Files, s: Settings, luck: Luck)
    requires Run(mounted, files, s, luck).1.Ok?
    ensures var (after, result) := Run(mounted, files, s, luck);
      var report := result.value;
      && (forall n :: CopiedPayload(n) in report <==> s.payload.Some? && n == |set p | p in after && p.Payload?|)
      && WroteScript in report
      && (EnabledSsh in report <==> s.enableSsh)
      && (AuthorisedKey in report <==> s.enableSsh && s.authorizedKey != [])
      && (WillJoinTailnet in report <==> s.enableSsh && s.tailscaleKey != [])
      && (NoKeyWarning in report <==> s.enableSsh && s.tailscaleKey == [])
      && (forall ssid :: NotedWifi(ssid) in report <==> ssid == s.wifiSsid != [])
      && (AlreadyArmed in report <==> IsArmed(files)) && (ArmedCmdline in report <==> !IsArmed(files))
      && report[|report| - 1] in {AlreadyArmed, ArmedCmdline}
  {
    hide Run, Armed, PayloadCount;
    ReportCounts(mounted, files, s, luck);
    PayloadCountIs(Run(mounted, files, s, luck).0);
  }

  lemma PayloadCountIs(files: Files)
    ensures PayloadCount(files) == |set p | p in files && p.Payload?|
  {
  }

  lemma ReportCounts(mounted: bool, files: Files, s: Settings, luck: Luck)
    requires Run(mounted, files, s, luck).1.Ok?
    ensures var (after, result) := Run(mounted, files, s, luck);
      var report := result.value;
      && (forall n :: CopiedPayload(n) in report <==> s.payload.Some? && n == PayloadCount(after))
      && WroteScript in report
      && (EnabledSsh in report <==> s.enableSsh)
      && (AuthorisedKey in report <==> s.enableSsh && s.authorizedKey != [])
      && (WillJoinTailnet in report <==> s.enableSsh && s.tailscaleKey != [])
      && (NoKeyWarning in report <==> s.enableSsh && s.tailscaleKey == [])
      && (forall ssid :: NotedWifi(ssid) in report <==> ssid == s.wifiSsid != [])
      && (AlreadyArmed in report <==> IsArmed(files)) && (ArmedCmdline in report <==> !IsArmed(files))
      && report[|report| - 1] in {AlreadyArmed, ArmedCmdline}
  {
    hide Laid, Armed, Strip, PayloadCount, Copy, Write, APPEND;
    PayloadStays(files, s, luck);
    ArmedStrip(files[Cmdline]);
    var count := PayloadCount(Copy(files, PayloadOf(s), luck).0);
    ReportSays(s, count, AlreadyArmed);
    ReportSays(s, count, ArmedCmdline);
  }

  lemma ReportSays(s: Settings, count: nat, last: Action)
    requires last == AlreadyArmed || last == ArmedCmdline
    ensures var report := Report(s, count, last);
      && (forall n :: CopiedPayload(n) in report <==> s.payload.Some? && n == count)
      && WroteScript in report
      && (EnabledSsh in report <==> s.enableSsh)
      && (AuthorisedKey in report <==> s.enableSsh && s.authorizedKey != [])
      && (WillJoinTailnet in report <==> s.enableSsh && s.tailscaleKey != [])
      && (NoKeyWarning in report <==> s.enableSsh && s.tailscaleKey == [])
      && (forall ssid :: NotedWifi(ssid) in report <==> ssid == s.wifiSsid != [])
      && (AlreadyArmed in report <==> last == AlreadyArmed) && (ArmedCmdline in report <==> last == ArmedCmdline)
      && |report| > 0 && report[|report| - 1] == last
  {
    hide Report, SshActions;
    SshSays(s);
    forall x: Action
      ensures x in Report(s, count, last) <==>
        (s.payload.Some? && x == CopiedPayload(count)) || x == WroteScript || x in SshActions(s) ||
        (s.wifiSsid != [] && x == NotedWifi(s.wifiSsid)) || x == last
    {
      ReportHas(s, count, last, x);
    }
    ReportEnds(s, count, last);
  }

  lemma ReportHas(s: Settings, count: nat, last: Action, x: Action)
    ensures x in Report(s, count, last) <==>
      (s.payload.Some? && x == CopiedPayload(count)) || x == WroteScript || x in SshActions(s) ||
      (s.wifiSsid != [] && x == NotedWifi(s.wifiSsid)) || x == last
  {
    hide SshActions;
  }

  lemma ReportEnds(s: Settings, count: nat, last: Action)
    ensures |Report(s, count, last)| > 0 && Report(s, count, last)[|Report(s, count, last)| - 1] == last
  {
    hide SshActions;
  }

  lemma SshSays(s: Settings)
    ensures forall x: Action :: x in SshActions(s) <==>
      s.enableSsh &&
      (x == EnabledSsh || (x == AuthorisedKey && s.authorizedKey != []) ||
       (x == WillJoinTailnet && s.tailscaleKey != []) || (x == NoKeyWarning && s.tailscaleKey == []))
  {
  }
}
